# avash, modelled and proved

avash is an SSH, RDP and VNC client: a Rust sidecar decodes remote desktops, a TypeScript front end shows them and
drives SSH sessions, tunnels and file transfers. This project models its protocol and state-machine logic in Dafny and
proves what its code and comments promise. `dafny verify dfyconfig.toml` checks all of it.

## The parts

- **Graphics channel** (MS-RDPEGFX). `EgfxModele` is the channel as a state machine over values: what every PDU does to
  surfaces, cache, counters and display queue. `Canal` holds the same processor on mutable buffers, with its loops, and
  refines it method by method; `Surfaces` and `Ecrans` do the same for surface buffers and the screen image. `Comptes`
  proves the accounts, `Dessins` what each command shows, `Publication` the bound on one call, `Cadrage` the framing and
  the acknowledgements, `Effets` what every PDU number does, told from its bytes alone, `Miroir` that the screen mirrors
  the surfaces over whole sessions, `Cisaillement` that one session is painted wrong.
- **From image to canvas**. `ZoneSale` keeps the dirty rectangles, `Messages` writes and reads desktop frames, `Bureau`
  proves that the canvas ends up equal to the image over any run of painting, sending, pausing, refreshing and resizing.
- **Memory of servers**. `Memoire`: an append-only text file shared by processes that interleave at every step.
- **Keyboard of a VNC desktop**. `Clavier`: the timed filter of the synthetic Ctrl of AltGr, the set of held keys, and
  their composition with the server's own set. `Filtrage` tells from the inputs alone what the filter lets through, `Tenues`
  from that alone what the server holds and is sent.
- **Transfers**. `Transferts` (scheduler), `Lignes` (keyed reconciliation of the rows), `Panneaux` (objects changed in
  place).
- **Tunnels and connections**. `Tunnels` interleaves opening attempts at each of their awaits, `Ouvertures` says what each
  answer does and which password is submitted; `Connexions` runs the SSH retry loop against every possible user and
  server.
- **Folders, command line, sound**. `Chemins`, `Tris` and `Arborescence`, `LigneDeCommande`, `Audio`.

Conventions: a pixel is four bytes and buffers are counted in pixels where the source counts bytes four by four; 16- and
32-bit fields are subset types, and saturation and wrap-around are written out. The image decoders answer each PDU
through a parameter: clearcodec and planar fail or give some bytes; the progressive codec gives the tiles it decoded
before it finished or failed. Each decompressed segment is a parameter too.

## Where the code and its comments part

`peindre_rgba` says a frame that overflows the image is clipped. Clipped on the bottom, it is. Clipped on the right, the
code advances in the source by the clipped width instead of the frame's own, so every row after the first is read too
early and the image is sheared. `Miroir.PeintureFideleSsi` gives the exact condition, `Miroir.TemoinCisaille` an image
painted wrong for every such frame, `Cisaillement.SessionCisaillee` three PDUs that every screen shows wrong, and the
mirror theorem carries that condition for each rectangle published: off the screen, not cut on its right, or one row
high. Its other condition is that of the design: the bytes already published leave room (`Miroir.BudgetSsi` says exactly
when frames are dropped). Where surfaces overlap, what is published last shows, and the pixels under it are forgotten;
`Miroir.ToujoursAccord` is the case without overlap, in which the whole of every surface stays on the screen.
Saturated coordinates need no condition: such places are off screen. ResetGraphics changes the screen size, so pixels
known before it are forgotten; moving or re-creating a surface forgets that surface's pixels.

A progressive image whose decoder fails after some tiles leaves them on the surface without publishing them.
`Miroir.TemoinRate` gives such an image for every live surface and `Miroir.ProgressifSsi` the exact condition; no other
drawing does it (`Miroir.DessinSousZones`). The pixels it changed are the only ones of its own surface a drawing forgets.

A canvas that was resized shows stretched content until the desktop is painted again or the whole image is asked for:
`Bureau` counts its places as lost until they are sent.

The two lists of folders agree only under the condition `Chemins.ListeEgaleArbre` states, in both directions.

A memory file that is not text never holds a key, and appending to it does not change that.

A surface that was never mapped is published at (0, 0), as the code does.

## Model

| member | source | states |
|---|---|---|
| Bitmaps.RogneeExacte | rdp-sidecar/src/surface.rs:34-44 | Clipping keeps exactly the part of a zone that lies on the surface, and refuses exactly the zones that have none. |
| Surfaces.EcritBitmap | rdp-sidecar/src/surface.rs:88-100 | Writing a whole bitmap at its own stride puts each of its pixels at the target corner plus its own position, whatever the surface clips, and changes no other pixel. |
| Surfaces.DecoupePuisEcrit | rdp-sidecar/src/surface.rs:88-113 | Cutting a zone out and writing it back where it was changes nothing. |
| Surfaces.Surface.Ecrire | rdp-sidecar/src/surface.rs:88-100 | The in-place row loop computes the specified image (the break on a short source included) and returns the clipped zone. |
| Surfaces.Surface.Remplir | rdp-sidecar/src/surface.rs:116-128 | The in-place fill colours exactly the clipped zone. |
| Surfaces.Surface.Extraire | rdp-sidecar/src/surface.rs:104-113 | Extraction returns the clipped zone with its pixels row by row, and fails only off the surface. |
| Dessins.EcritTousExact | rdp-sidecar/src/egfx.rs:974-989 | Of several copies of one piece, the last that covers a pixel decides it; uncovered pixels keep their value. |
| Dessins.RectsExacts | rdp-sidecar/src/egfx.rs:940-958 | The rectangles read are the upright, complete ones of the PDU and no others. |
| Dessins.SolidFillExact | rdp-sidecar/src/egfx.rs:940-958 | SolidFill colours exactly the pixels under a complete upright rectangle, opaque, with blue and red put back in place. |
| Dessins.CiblesExactes | rdp-sidecar/src/egfx.rs:974-989 | The destinations are exactly the complete points of the PDU, in order. |
| Dessins.SurfaceVersSurfaceExact | rdp-sidecar/src/egfx.rs:961-989 | Each destination pixel gets the source pixel of the state before the PDU, the last covering destination winning, even when source and destination are the same surface and overlap. |
| Dessins.CacheVersSurfaceExact | rdp-sidecar/src/egfx.rs:1005-1030 | The same from a cached piece. |
| Dessins.NonCompresseAccepte | rdp-sidecar/src/egfx.rs:850-938 | An uncompressed image is drawn if and only if its surface exists, its rectangle is upright and inside it, and all its bytes are present. |
| Dessins.NonCompresseExact | rdp-sidecar/src/egfx.rs:850-938 | It then shows the three colour bytes of the PDU, opaque, inside the rectangle and nothing new outside. |
| Canal.Boite | rdp-sidecar/src/egfx.rs:499-517 | The loop that folds zones into one box computes the specified bounding box. |
| Canal.Cache.Deposer | rdp-sidecar/src/surface.rs:159-179 | Deposit in place: entry and byte budget net of the entry replaced, or refusal with nothing changed. |
| Canal.Cache.Oublier | rdp-sidecar/src/surface.rs:186-193 | Eviction gives the evicted bytes back to the budget. |
| Canal.Egfx.Publier | rdp-sidecar/src/egfx.rs:812-843 | The publishing loop pushes exactly the specified frames and counts their bytes; surfaces are untouched. |
| Canal.Egfx.SolidFill | rdp-sidecar/src/egfx.rs:940-958 | In-place fill of a surface buffer followed by publication refines the value-level command; no other surface buffer changes. |
| Canal.Egfx.SurfaceVersSurface | rdp-sidecar/src/egfx.rs:961-989 | In-place copies between surface buffers, aliasing included, refine the value-level command. |
| Canal.Egfx.CacheVersSurface | rdp-sidecar/src/egfx.rs:1005-1030 | In-place copies from the cache refine the value-level command. |
| Canal.Egfx.WireToSurface1 | rdp-sidecar/src/egfx.rs:850-938 | All refusals, the three codecs (two of them answered by the environment) and the in-place write refine the value-level command. |
| Canal.PoserTuiles | rdp-sidecar/src/progressif.rs:545-566 | The loop lays the decoded tiles in order, each clipped to the surface, and returns the clips painted. |
| Canal.Egfx.WireToSurface2 | rdp-sidecar/src/egfx.rs:1032-1058 | A progressive image refines the value-level command: the tiles decoded are laid in place, and published like any other zones only if the whole image decoded. |
| Canal.Egfx.SurfaceVersCache | rdp-sidecar/src/egfx.rs:992-1003 | The piece deposited is the clipped part of the source surface. |
| Canal.Egfx.CreateSurface | rdp-sidecar/src/egfx.rs:688-724 | Creation, re-creation of a live identifier and the three refusals; the new surface has its own buffer. |
| Canal.Egfx.DeleteSurface | rdp-sidecar/src/egfx.rs:725-731 | Deletion of surface, bytes and origin. |
| Canal.Egfx.Traiter | rdp-sidecar/src/egfx.rs:682-799 | One PDU of any kind on mutable surfaces, cache and counters does exactly what the state machine says, reply included, whatever the image decoders answer, and keeps all buffers separate. |
| Canal.Egfx.TraiterTous | rdp-sidecar/src/egfx.rs:1130-1155 | The loop over the PDUs of a segment is the fold of the state machine, with the replies in order. |
| Canal.Egfx.Process | rdp-sidecar/src/egfx.rs:1110-1156 | A segment resets the publishing budget, then its PDUs act in order; an unreadable one does nothing. |
| Effets.TraiteExact | rdp-sidecar/src/egfx.rs:682-1058 | Each PDU does what its number says, read from its bytes: for 0x0001, 0x0002, 0x0004, 0x0005 and 0x0007, whether it draws, on which surface, the colour of every pixel afterwards, and frames of zones that cover exactly what was painted; for 0x0006, 0x0008, 0x0009, 0x000A, 0x000C, 0x000E and 0x000F, the whole new state; any other number, or a PDU too short, does nothing. |
| Effets.TuilesExactes | rdp-sidecar/src/progressif.rs:545-566 | After the tiles are laid, a pixel is that of the last tile of its column and row of 64, at its place in the tile, or the old one. |
| Effets.TuilesCouvrent | rdp-sidecar/src/progressif.rs:545-566 | The zones returned cover exactly the pixels of the surface that some tile gives. |
| Effets.TramesExactes | rdp-sidecar/src/egfx.rs:825-842 | The k-th zone becomes the k-th frame exactly when the bytes spent and those of the zones before it are under 64 MiB; the frame shows what is under the zone, at its place on the screen held at 65535. |
| Effets.BoiteMinimale | rdp-sidecar/src/egfx.rs:499-517 | The box published for more than eight zones is around them all, and inside any rectangle that is. |
| Effets.TailleSuivie | rdp-sidecar/src/capture.rs:119-137 | A screen size received, columns then rows, is that of the screen once painted: unchanged if it had that size, black where nothing is drawn if not. |
| Effets.ReponseExacte | rdp-sidecar/src/egfx.rs:135-144 | The end of a frame, and nothing else, is answered: twenty bytes, number 13, depth zero, the frame's own number, the count of frames ended. |
| Comptes.CreateSain | rdp-sidecar/src/egfx.rs:688-724 | Creation keeps the accounts exact and bounded, and its subtraction never underflows, even when an existing identifier is re-created. |
| Comptes.DeleteSain | rdp-sidecar/src/egfx.rs:725-731 | Deletion keeps them and its subtraction never underflows. |
| Comptes.DeposeSain | rdp-sidecar/src/surface.rs:159-179 | Cache deposits keep the cache budget exact and at most 16 MiB; the net subtraction never underflows. |
| Comptes.OublieSain | rdp-sidecar/src/surface.rs:186-193 | Eviction likewise. |
| Comptes.TraiteSain | rdp-sidecar/src/egfx.rs:682-799 | No PDU, however malformed, and no decoder answer breaks the accounts. |
| Comptes.ToujoursSain | rdp-sidecar/src/egfx.rs:468-479 | In every state reachable by any PDUs: the byte counter is the sum of 4*width*height over live surfaces and at most 512 MiB, at most 64 surfaces, sides 1 to 8192, cache bytes exact and bounded. |
| Publication.UneTrame | rdp-sidecar/src/egfx.rs:831-841 | A published zone of any admitted surface weighs between 1 byte and 256 MiB. |
| Publication.PublieZonesBornee | rdp-sidecar/src/egfx.rs:825-842 | One publication counts exactly the bytes it pushes, adds at most one frame per zone, stops at the budget and passes it by one zone at most. |
| Publication.PremiereZonePasse | rdp-sidecar/src/egfx.rs:826-833 | From a counter at zero, the first zone of a publication that touches the surface becomes its first frame, whatever its size. |
| Publication.PremiereZoneDeLAppel | rdp-sidecar/src/egfx.rs:1110-1156 | In a whole call, the first rectangle to publish that touches its surface (of a drawing with more than RECTS_MAX zones, their box), in the first drawing that has one, is published, and stands first among the frames of the call when it ends. |
| Publication.TraitePublie | rdp-sidecar/src/egfx.rs:682-799 | One PDU of any kind, progressive images included, adds at most RECTS_MAX frames, counted to the byte. |
| Publication.AppelBorne | rdp-sidecar/src/egfx.rs:1110-1156 | One call pushes less than 64 MiB plus one frame of at most 256 MiB, whatever the number of PDUs and rectangles, and the counter equals the bytes pushed. |
| Miroir.PeintureFideleSsi | rdp-sidecar/vendor/ironrdp-session/src/image.rs:212-229 | Painting a frame shows every image of that size at its place if and only if the frame is off screen, not cut on its right side, or one row high: otherwise the rows are read at the clipped stride and the image is sheared. |
| Miroir.TemoinCisaille | rdp-sidecar/vendor/ironrdp-session/src/image.rs:217-228 | For every frame cut on the right and more than one row high, a concrete image that is painted wrong, with the wrong pixel. |
| Miroir.SurfaceEntiereSsi | rdp-sidecar/src/egfx.rs:812-843 | Publishing a whole surface and painting shows it, whatever it holds, if and only if it is not cut on the right of the screen (or is off screen, or shows one row). |
| Miroir.BudgetSsi | rdp-sidecar/src/egfx.rs:825-830 | Every zone becomes a frame if and only if the bytes spent before plus the clipped sizes of all zones but the last are below 64 MiB: a single zone or a box, if and only if the budget is not already spent. |
| Miroir.BoiteCouvre | rdp-sidecar/src/egfx.rs:499-517 | The bounding box covers everything the zones cover. |
| Miroir.APublierCouvre | rdp-sidecar/src/egfx.rs:817-823 | Collapsing more than RECTS_MAX zones loses no pixel. |
| Miroir.PublicationRafraichit | rdp-sidecar/src/egfx.rs:812-843 | When no published rectangle is cut on the right of the screen (or it is off screen, or one row) and the budget holds, painting the frames of one publication refreshes exactly the screen places of the zones, and leaves the rest of the screen alone. |
| Cisaillement.SessionCisaillee | rdp-sidecar/src/egfx.rs:1110-1156 | On every screen two rows high or more, three PDUs received from the start (a surface made, placed on the last column, drawn uncompressed) are painted wrong: a pixel of the surface that is on the screen does not show. |
| Miroir.DessinSousZones | rdp-sidecar/src/egfx.rs:850-1058 | No drawing command but a progressive image whose decoder failed changes a pixel it does not publish. |
| Miroir.ProgressifSsi | rdp-sidecar/src/egfx.rs:1032-1058 | On a live surface, a progressive image publishes all it changes, whatever the tiles decoded, if and only if its decoder finished. |
| Miroir.TemoinRate | rdp-sidecar/src/progressif.rs:545-566 | On every live surface, one tile decoded before a failure changes a pixel and nothing is published. |
| Miroir.RienNEstOublie | rdp-sidecar/src/egfx.rs:850-1058 | A drawing that publishes all it changes, on a surface that overlaps no other on the screen, keeps all the pixels known to be shown, those of the other surfaces included. |
| Miroir.SuitMiroir | rdp-sidecar/src/capture.rs:119-137 | One event (segment, PDU, painting of the queue) keeps the mirror: every known pixel of every surface is on the screen once the queue is painted. |
| Miroir.ToujoursMiroir | rdp-sidecar/src/capture.rs:119-137 | Over any session of drawing and management PDUs in which no published rectangle is cut on the right of the screen and the budget holds, surfaces overlapping or not: every pixel published shows at its place, bounding-box collapses included, and stays there until another surface is published over it, its surface is moved, re-created or changed without publication, or the screen is resized. |
| Miroir.ToujoursAccord | rdp-sidecar/src/capture.rs:119-137 | If surfaces do not overlap on the screen and the screen agrees with every pixel of every one, it still does after any run of such drawings, none a progressive image that failed, of segments, paintings and PDUs that place no surface. |
| Ecrans.DecodedImage.PeindreRgba | rdp-sidecar/vendor/ironrdp-session/src/image.rs:212-229 | The in-place row loop, with its early return and its clipped stride, computes the specified screen. |
| Ecrans.Peintre.PeindreEnAttente | rdp-sidecar/src/capture.rs:119-137 | Draining takes the new size then paints all frames in order, empties the queue and tells whether anything was painted. |
| Cadrage.Decouper | rdp-sidecar/src/egfx.rs:266-283 | The index loop returns the PDUs of the recursive specification. |
| Cadrage.CodeRelu | rdp-sidecar/src/egfx.rs:266-283 | A PDU is read back wherever its wire form is written. |
| Cadrage.ConcatRelu | rdp-sidecar/src/egfx.rs:266-283 | Cutting undoes any concatenation of encodings and goes on with what follows: it distributes over concatenation after a fully consumed prefix. |
| Cadrage.TranchesConsecutives | rdp-sidecar/src/egfx.rs:266-283 | On any buffer the PDUs are consecutive, disjoint slices, each behind its own whole header. |
| Cadrage.ArretExact | rdp-sidecar/src/egfx.rs:266-283 | Cutting stops inside the buffer and only where no whole PDU begins (short, undersized or overrunning header). |
| Cadrage.CompteurExact | rdp-sidecar/src/egfx.rs:791-795 | The counter of decoded frames grows by the number of EndFrames, modulo 2^32. |
| Cadrage.UnAccuseParTrame | rdp-sidecar/src/egfx.rs:791-795 | A call answers exactly one acknowledgement per EndFrame of at least four bytes, in order, consecutively numbered. |
| Cadrage.AccuseBienForme | rdp-sidecar/src/egfx.rs:135-144 | An acknowledgement is itself one well-formed PDU with queue depth zero, the frame and the total (section 2.2.2.13 of MS-RDPEGFX). |
| Memoire.Fichier.Pour | rdp-sidecar/src/egfx.rs:361-374 | The scan of the lines accepts a key if and only if some line, trimmed, is that key. |
| Memoire.Fichier.Memoriser | rdp-sidecar/src/egfx.rs:380-429 | Remembering loses no key; if the file could be opened, the key is recognised afterwards if and only if it is clean and the file is not unreadable; a known key changes nothing. |
| Memoire.AjoutGarde | rdp-sidecar/src/egfx.rs:403-429 | An append that ends an unfinished last line first loses no key. |
| Memoire.AjoutReconnu | rdp-sidecar/src/egfx.rs:403-429 | The appended key is recognised if and only if it is clean: no line feed, no blank at its ends. |
| Memoire.AppendGagne | rdp-sidecar/src/egfx.rs:403-429 | One append, by a process that knows whether the file ended a line, loses no key; the key is recognised if and only if it is clean and the file is absent or text. |
| Memoire.SansSautCleLa | rdp-sidecar/src/egfx.rs:403-412 | Without the leading line feed, the last key of an unfinished file would be lost: the reason for reading the tail. |
| Memoire.CleMalsaine | rdp-sidecar/src/egfx.rs:361-374 | No text makes an unclean key recognised. |
| Memoire.SansBlancSaine | rdp-sidecar/src/args.rs:189-192 | A host without blanks, which is all the command line accepts, gives a clean key. |
| Memoire.JamaisPerdue | rdp-sidecar/src/egfx.rs:361-429 | In every interleaving of any number of processes, each checking, reading the tail and appending in separate steps, from an absent, text or unreadable file: no key is ever lost, and a key found or written stays recognised if and only if it is clean and the file is not unreadable. |
| Memoire.ReconnueSsi | rdp-sidecar/src/egfx.rs:361-374 | A key is recognised if and only if some line of the text, from a line feed or the start to a line feed or the end, is the key between blanks. |
| Memoire.AjoutRienDAutre | rdp-sidecar/src/egfx.rs:403-429 | Appending one line makes its key recognised and no other, but perhaps the empty one. |
| Memoire.MemoriseAboutit | rdp-sidecar/src/egfx.rs:380-429 | A process that takes its steps in order, whatever the others do in between, and can open the file ends with its key written or found: recognised if it is clean and the file can be read. |
| ZoneSale.MeilleurePaire | rdp-sidecar/src/trames.rs:239-256 | The double loop finds the first pair, in scan order, of least loss. |
| ZoneSale.Reduire | rdp-sidecar/src/trames.rs:238-259 | Reduction covers all it covered and leaves at most RECTS_MAX rectangles. |
| ZoneSale.AjouterRect | rdp-sidecar/src/trames.rs:211-260 | The new list covers the old one and the rectangle, never exceeds RECTS_MAX, never costs more bytes than sending the rectangle apart while there is room; it is exactly the first profitable merge, the append, or the least wasteful merge. |
| ZoneSale.UnionMinimale | rdp-sidecar/src/trames.rs:222-227 | The union of two rectangles is around both, and inside any rectangle that is. |
| Messages.BorneExacte | rdp-sidecar/src/trames.rs:274-285 | Clamping keeps exactly the pixels of the rectangle that are on the image, and refuses exactly the rectangles that have none. |
| Messages.EcrireBloc | rdp-sidecar/src/trames.rs:320-331 | The row loop writes the header and the pixels of the zone. |
| Messages.DecoderTrame | web/trames-bureau.ts:92-114 | Every buffer beginning with 2 or 13 decodes to an image message; the loop returns what the recursive reader says. |
| Messages.RectsSurs | web/trames-bureau.ts:83-113 | Every rectangle returned has pixels, its pixel range lies inside the buffer, and ranges are disjoint and increasing. |
| Messages.CompleteSsi | web/trames-bureau.ts:105-113 | A message is complete if and only if all announced rectangles, empty ones included, follow one another inside the buffer. |
| Bureau.BlocsRelus | web/trames-bureau.ts:83-113 | Decoding a written list of rectangles returns exactly its non-empty ones, in order, each with the place of its pixels, and finds the message complete. |
| Messages.BlocRelu | rdp-sidecar/src/trames.rs:335-359 | A written rectangle is read back wherever it stands, with its length. |
| Messages.PixelsRelus | rdp-sidecar/src/trames.rs:354-357 | The bytes read at its offset are the pixels of the image it was cut from. |
| Messages.BlocOctets | rdp-sidecar/src/trames.rs:335-359 | A block byte by byte: left, top, width and height, low byte first, then red, green, blue and alpha of each pixel, row after row. |
| Messages.MessageOctets | rdp-sidecar/src/trames.rs:288-318 | The message is code 2 and the block of the one rectangle on the image, or code 13, their number and their blocks. |
| Messages.CoutExact | rdp-sidecar/src/trames.rs:228 | What a rectangle is said to cost is what its block weighs. |
| Bureau.BornesCouvrent | rdp-sidecar/src/trames.rs:294-297 | The rectangles sent cover, on the image, exactly what the dirty zone covers. |
| Bureau.MessageMontre | web/rdp.ts:643-662 | Encoding the dirty zone, decoding it and drawing it shows the image under the zone and leaves the canvas alone elsewhere, whether one rectangle or several. |
| Bureau.SuitCoherent | rdp-sidecar/src/session.rs:257-328 | Painting, sending, pausing, receiving, acknowledging (or giving up waiting), refreshing, a blanked canvas and a new size keep: once all in flight is received the canvas has the size of the image and equals it wherever nothing is dirty and no place was lost. |
| Bureau.RafraichirRestaure | rdp-sidecar/src/session.rs:537-556 | Asking for the whole image restores any canvas, whatever was lost or in flight: once all is received it is the image, pixel for pixel. |
| Bureau.CanvasFidele | rdp-sidecar/src/session.rs:257-328 | Over any run, whenever nothing is dirty nor in flight, canvas and image have the same size and agree at every place not lost since it was last sent. |
| Bureau.SansPerteFidele | rdp-sidecar/src/session.rs:257-328 | Only a blanked canvas or a new size loses places: without them, from the start or from a refresh, the canvas is the image whenever nothing is dirty nor in flight. |
| Bureau.UnEnvoiSuffit | rdp-sidecar/src/session.rs:257-273 | With the way free and no place lost, one send and its reception make the canvas the image. |
| Bureau.RattrapageComplet | rdp-sidecar/src/session.rs:257-273 | Whatever is dirty, paused, awaited or in flight: once the tab is back, the acknowledgement in, the dirty zone sent and all received, the canvas is the image, if no place was lost. |
| Bureau.TrameAuCanvas | rdp-sidecar/src/session.rs:278-328 | A frame painted on the image and not cut on its right ends up on the canvas, at its place and as it is, and nothing else changes there. |
| Bureau.CadenceTenue | rdp-sidecar/src/session.rs:257-273 | Over any run the dirty zone goes out at most once more than the wait was lifted by an acknowledgement or a new size, and never while the tab is in the background. |
| Clavier.FiltreCtrlAltGrWindows.Traiter | web/vnc-clavier.ts:122-151 | The fields updated in place and the events emitted are those of the filter's transition, and a timer is armed if and only if a Ctrl is pending. |
| Clavier.FiltreCtrlAltGrWindows.Minuteur | web/vnc-clavier.ts:128 | The timer emits the pending Ctrl and disarms. |
| Clavier.ToujoursFidele | web/vnc-clavier.ts:107-151 | Over any run: every input is emitted, pending or dropped; only ControlLeft events are dropped; after a dropped key-down the next event, swallowed key-ups aside, is an AltGraph key-down; swallowed key-ups never outnumber dropped key-downs; pending if and only if armed. |
| Clavier.EnOrdre | web/vnc-clavier.ts:107-151 | What was emitted, then the pending Ctrl, is an in-order subsequence of what came in. |
| Clavier.HorsService | web/vnc-clavier.ts:123 | A filter out of service is the identity. |
| Filtrage.FiltreExact | web/vnc-clavier.ts:107-151 | Over any inputs, a filter in service has let through exactly the keystrokes their fates say, told from the inputs alone: all but a left Ctrl that an AltGr follows, the first release of it since, and a left Ctrl still waiting for what comes next; it is armed, and due to swallow, exactly when the inputs say so. |
| Clavier.KeysymRelu | web/vnc-clavier.ts:57-59 | The key message presses or releases exactly its keysym on the server. |
| Clavier.ToucheTenues.Enfoncer | web/touches-tenues.ts:25-27 | Pressing adds the key once, last. |
| Clavier.ToucheTenues.Relacher | web/touches-tenues.ts:34-36 | Releasing removes the key and tells whether it was held. |
| Clavier.ToucheTenues.RelacherTout | web/touches-tenues.ts:39-47 | One release per held key, in order, and nothing held afterwards. |
| Clavier.RelachementsVident | web/touches-tenues.ts:39-47 | Those releases empty the server's set and none is for a key not held. |
| Clavier.ClavierVnc.EmettreVnc | web/rdp.ts:475-485 | One emitted event updates the held set and sends what the pure step says. |
| Clavier.ClavierVnc.ToucheVnc | web/rdp.ts:493-496 | A key event goes through filter, held set and socket as one transition. |
| Clavier.ClavierVnc.Echeance | web/vnc-clavier.ts:128 | So does the expiry of the timer. |
| Clavier.ClavierVnc.RelacherTenues | web/rdp.ts:414-416 | So does the loss of focus. |
| Clavier.ToujoursAccord | web/rdp.ts:406-421 | Over any run of key, timer and blur events, for any key table: the keys the server holds are exactly those tracked, and no release is ever sent for a key not held. |
| Clavier.FlouRelacheTout | web/rdp.ts:414-416 | After a blur nothing is held on either side; a Ctrl still pending in the filter stays pending. |
| Tenues.ToujoursExact | web/rdp.ts:406-503 | Over any run, any table: the keys held are those whose last keystroke let through since focus was lost is a press, in the order they came to be held; the messages sent are one for each press that has a keysym, one for each release of a keysym held, and one for each keysym held when focus is lost, in order and byte for byte. |
| Tenues.ServeurExact | web/rdp.ts:406-503 | So the server holds a keysym if and only if the last keystroke about it let through since focus was lost is a press. |
| Transferts.LanceCompte | web/sftp-transferts.ts:59-69 | Starting transfers raises the running count by the number started, and leaves one waiting only when all places are taken. |
| Transferts.ResteApres | web/sftp-transferts.ts:59-69 | A transfer left waiting is younger than all those started. |
| Transferts.ToujoursReglee | web/sftp.ts:52-91 | Over any run of additions, endings, cancellations and dismissals: at most three run, none waits while a place is free, each is launched at most once and in order of arrival. |
| Transferts.TransitionsLegales | web/sftp.ts:59-91 | Each event makes only the moves waiting to running or cancelled, running to final; only dismissing a finished transfer takes it out: a running one never leaves. |
| Transferts.AjouterExact | web/sftp.ts:52-69 | A new transfer comes last and starts at once if and only if fewer than three run; nothing else changes. |
| Transferts.TerminerExact | web/sftp.ts:71-84 | A running transfer that ends is finished, cancelled if its failure contains the words of the core, or in error; the first one waiting, if any, starts in its place; an ending of any other changes nothing. |
| Transferts.AnnulerEffacerExacts | web/sftp.ts:86-91 | Cancelling marks a waiting transfer and no other; dismissing takes out a finished one and no other, keeping the order. |
| Panneaux.ALancer | web/sftp-transferts.ts:59-69 | The scan with its counter and early stop returns exactly the first waiting transfers that fit. |
| Panneaux.LanceSsi | web/sftp.ts:59-67 | In the queue, exactly the transfers chosen by the scan are the ones marked running. |
| Panneaux.Panneau.Planifier | web/sftp.ts:59-69 | Transfer objects are started in place as the scheduler says, and the rows redrawn. |
| Panneaux.Panneau.Ajouter | web/sftp.ts:52-57 | Adding a transfer object is one step of the scheduler; the rows are those of the queue, and each transfer ever added has had one row, made and inserted once. |
| Panneaux.Panneau.Terminer | web/sftp.ts:71-84 | The end of a running transfer, likewise. |
| Panneaux.Panneau.Annuler | web/sftp.ts:177-183 | A cancellation, likewise; a running transfer is left to end by itself. |
| Panneaux.Panneau.Effacer | web/sftp.ts:86-91 | A click on a finished row takes out the object at its index, likewise. |
| Lignes.InsereApres | web/sftp.ts:172 | Moving a row there keeps the rows placed and the order of the others. |
| Lignes.Rendu.RetirerAbsents | web/sftp.ts:153-159 | Exactly the rows of absent transfers leave, and the order of the others is kept. |
| Lignes.Rendu.Rendre | web/sftp.ts:152-175 | From any order, the children end as exactly the rows of the queue in order, one each; surviving rows keep their node; and when the survivors are already in order only new rows are inserted, each once. |
| Panneaux.RenduUneFois | web/sftp.ts:152-175 | Appending or removing one transfer keeps: node k was made for the k-th transfer ever added and inserted once; no row is ever recreated or re-inserted. |
| Tunnels.Tables.Reprendre | web/tunnels.ts:215-296 | Whatever an attempt awaited comes back with, the tables and the attempt change in place as the state machine says. |
| Tunnels.Tables.AnnulerOuverture | web/tunnels.ts:302-314 | A cancellation frees the row and clears its error. |
| Tunnels.SuitCoherent | web/tunnels.ts:215-314 | Each event keeps: a row is busy if and only if it has a token, the token's attempt is for that row and still running, and no attempt exceeds three tunnel_start calls. |
| Tunnels.ToujoursCoherent | web/tunnels.ts:215-314 | So it is under every interleaving of any number of attempts, cancellations and stops. |
| Tunnels.ToutFinit | web/tunnels.ts:215-296 | However the others interleave, an attempt is over after at most eight answers to what it awaits, and no longer holds its row, which is then free unless another running attempt has taken it: no row stays stuck. |
| Tunnels.ErreurFondee | web/tunnels.ts:238-286 | What a row says of an opening is true: nothing once it has opened, its own message for any failure, and the three-refusals message exactly after the third call was refused for want of a password. |
| Tunnels.AbandonneeSeTait | web/tunnels.ts:233-295 | An attempt without its token ends without touching any table. |
| Tunnels.AutresLignesIntactes | web/tunnels.ts:215-296 | No attempt touches the row of another tunnel. |
| Tunnels.ResteAbandonnee | web/tunnels.ts:233 | Abandoned is for good: over any run such an attempt never holds a token nor calls tunnel_start again. |
| Tunnels.AbandonSansEffet | web/tunnels.ts:233-296 | Every run goes, for the tables and all other attempts, exactly as if what comes back to an abandoned attempt never did. |
| Ouvertures.RevientExact | web/tunnels.ts:215-296 | Each answer moves its attempt on: a password is asked first if and only if the host needs one, asked again at most twice, on a refusal for want of one; the row is taken when the first opening goes out and freed when an attempt that held it ends; no other attempt changes. |
| Ouvertures.ToujoursSaisieJuste | web/tunnels.ts:215-283 | Over any interleaving, an attempt under way submits the last password the user typed for it, and none if none was typed; it is for the tunnel and host it was started with. |
| Ouvertures.MemoriseSsi | web/tunnels.ts:239-256 | An opening goes on to save if and only if it succeeded and the last password typed for it is not empty, was to be kept, and the host is one of those saved. |
| Ouvertures.ErreurDeLaLigne | web/tunnels.ts:238-314 | Over any run, a row shows an error exactly when the last thing said about it is that one: a failure, a third refusal, unless an opening has succeeded, been cancelled or cleared since. |
| Connexions.ConnectByAlias | web/main.ts:813-923 | Whatever user and server answer, the conversation is, act by act, the one called for by the acts before (a password asked first exactly when the host needs one, the tab looked at before each try, the last password submitted, and so on to the end): at most five pty_open, three refused passwords and one key relearnt; every password typed is submitted next unless the tab is gone; only the one that just worked is saved, exactly when it is not empty and the user asked. |
| Connexions.ConversationUnique | web/main.ts:813-923 | Those acts leave one conversation only for each way the world may answer. |
| Connexions.OublierLaCle | web/main.ts:874-896 | After a changed key the user is asked; the key is forgotten exactly when the user agrees, and the conversation goes on only if that succeeds. |
| Connexions.DemanderAvant | web/main.ts:826-840 | A password is asked before the first try exactly when the host needs one; giving it up ends the conversation. |
| Chemins.SegmentsConcat | web/filters.ts:519 | Cutting a path at a slash cuts both sides. |
| Chemins.SegmentsJoint | web/filters.ts:517-528 | Joining segments and cutting again gives them back. |
| Chemins.AllFolderPaths | web/filters.ts:552-562 | The list is the registered folders and every folder on the way to a used one, without the empty path, each once, sorted by UTF-16 code units. |
| Tris.TrieeUnique | web/filters.ts:561 | A set of folders has one sorted list only, so its members determine the list offered. |
| Chemins.ListeEgaleArbre | web/filters.ts:552-562 | The list is the set of folders of the tree if and only if every registered folder is written the way the tree writes it and the folder above each is the root, registered, or above a used one. |
| Chemins.ListeSansParent | web/filters.ts:552-562 | An input where they differ: a registry holding only a/b; the tree shows a, which the list does not offer. |
| Arborescence.EnsureFolderNode | web/filters.ts:516-529 | Going down in place makes exactly the missing nodes, without items, keeps every other, and ends at the node of the normalised path. |
| Arborescence.FormeGreffe | web/filters.ts:520-525 | Hanging a new child keeps a tree: names, paths equal to the parent's joined with the name, one place per node. |
| Arborescence.BuildFolderTree | web/filters.ts:537-545 | The nodes are exactly the prefix closure of all folders, registered or used; every item is in the node of its normalised folder, in order, and nowhere else. |
| Arborescence.FolderNodeCount | web/filters.ts:564-568 | The recursive count of a node is the number of items at its place and below. |
| Arborescence.Conservation | web/filters.ts:564-568 | Over all places, every item is counted exactly once. |
| Arborescence.CompteDeLaRacine | web/filters.ts:537-568 | The count of the root of a tree just built is the number of items. |
| Arborescence.CheminsDesPlaces | web/filters.ts:537-562 | The paths of the nodes are the lineages of the folders, which links the tree to the list. |
| LigneDeCommande.Analyser | rdp-sidecar/src/args.rs:94-125 | The loop accepts exactly the printings of permitted options and flags, returns what was printed, and otherwise gives the reason of the first word that cannot be read. |
| LigneDeCommande.ImpressionUnique | rdp-sidecar/src/args.rs:94-125 | A command line is the printing of one list only, so parsing undoes printing for arbitrary values, even values that look like flags. |
| LigneDeCommande.RefusFonde | rdp-sidecar/src/args.rs:98-123 | What is refused is the printing of no list of permitted options and flags. |
| LigneDeCommande.DrapeauEnCle | rdp-sidecar/src/args.rs:108-137 | A flag is set if and only if it stands where a key is read. |
| LigneDeCommande.ValeursExactes | rdp-sidecar/src/args.rs:94-125 | The values read are those of the options of the line, in its order, each the word after its option. |
| Audio.BlocRelu | web/audio.ts:10-21 | A sound block is read back as written, whatever its format byte and timestamp. |
| Audio.Pcm16VersFlottants | web/audio.ts:24-33 | The nested loops separate the channels: each sample lands in its channel and frame, between -1 and 1. |
| Audio.EchantillonExact | web/audio.ts:24-33 | A sample is the signed number of its two bytes, low byte first, at the rank of its channel in its frame, over 32768. |
| Audio.LisibleSsi | web/audio.ts:10-21 | A message gives a block exactly when its rate, channels, sample size and samples stand at their places and within their limits. |
| Audio.LecteurAudio.Jouer | web/audio.ts:77-111 | The cursor, the sources and the counters change as the schedule says; an unreadable block changes nothing. |
| Audio.JoueRegulier | web/audio.ts:84-106 | One block keeps the schedule regular and never starts in the past. |
| Audio.ToujoursRegulier | web/audio.ts:77-111 | Over any run on a clock that never goes back: blocks never overlap, none starts before it came, and the cursor is at most half a second and one block ahead. |
| Audio.ToujoursComptes | web/audio.ts:77-111 | Over any run, the blocks received are those scheduled plus those dropped, each once, and the frames counted are the frames of both. |
| Audio.ToujoursJoue | web/audio.ts:77-111 | Over any run, whatever the clock reads: a block is dropped if and only if what is scheduled ends more than 0.5 s after it came, and nothing else then changes; any other is the next source, from where that ends, or 0.05 s after it came if that is past. |

## Left out

- The clearcodec, planar, RemoteFX Progressive and ZGFX decoders: codecs, here answers of the environment and segments
  already decompressed. The coefficients a surface keeps for the progressive codec live in those answers.
- Capability announcement, channel opening, PDU journal and counters by kind: no state the other PDUs read.
- Mutexes, panics caught around decoders, logs, environment variables, file permissions and directory creation.
- Canal.Egfx.CreateSurface: counters of the class are unbounded integers; that no subtraction underflows is proved on
  the state machine they refine (`Comptes.CreateSain`, `Comptes.DeleteSain`, `Comptes.DeposeSain`, `Comptes.OublieSain`).
- Bureau.CanvasFidele: when the canvas is resized the front end smooths what it stretches; the model takes the nearest
  pixel, and promises none of them. Cursor, statistics and the classic drawing path are left out.
- Memoire.Fichier.Memoriser: one process alone on the file; concurrent writers are the state machine of
  `Memoire.JamaisPerdue`, with the append taken as one atomic step, as the operating system gives it.
- Clavier.ToujoursAccord: the socket stays open, the table from browser keys to keysyms is a parameter, and mouse buttons
  released on blur are left out; the RDP scancode path has no filter and is left out.
- Panneaux.Panneau.Ajouter: progress, speed, messages, the listening error and what a row displays are left out, as is the
  cancellation request sent to the core, which changes no state here.
- Tunnels.ToujoursCoherent: cancellations and error resets may happen at any moment, for any row, which allows more runs
  than the interface does; the refresh of the list and its rendering are left out.
- Connexions.ConnectByAlias: terminal output and the labels shown are left out.
- LigneDeCommande.Analyser: what each option means afterwards (ports, sizes, layouts, passwords on standard input) is left out.
- Audio.LecteurAudio.Jouer: the audio context exists and stays open; volume, closing and reopening are left out; clock and
  durations are reals.
- TLS, CredSSP, certificate pinning, the WebSocket accept loop, dialogs, themes, translations and icons: plumbing or tables.
