/** The screen image and the loop that drains the display queue into it. */
module Ecrans {
  import opened Octets
  import opened Bitmaps
  import opened Surfaces
  import opened EgfxModele
  import opened Canal
  import Miroir

  class DecodedImage {
    const width: u16
    const height: u16
    const data: array<Pixel>

    ghost predicate Valid() {
      data.Length == Debut(width, height)
    }

    ghost function Vue(): (b: Bitmap)
      reads data
      ensures Valid() ==> b.BienForme()
    {
      Bitmap(width, height, data[..])
    }

    constructor (l: u16, h: u16)
      ensures Valid() && fresh(data) && width == l && height == h && Vue() == Noire(l, h)
    {
      width, height := l, h;
      DebutProduit(l, h);
      data := new Pixel[l * h](_ => NOIR);
      new;
      assert data[..] == Noire(l, h).pixels;
    }

    /** Paints rows of pixels, clipped on the right and at the bottom; rows are read at the clipped width. */
    method PeindreRgba(x: u16, y: u16, largeur: nat, hauteur: nat, pixels: seq<Pixel>)
      requires Valid()
      modifies data
      ensures Vue() == Miroir.PeintRgba(old(Vue()), x, y, largeur, hauteur, pixels)
    {
      if x >= width || y >= height {
        return;
      }
      var l, h := Min(largeur, width - x), Min(hauteur, height - y);
      ghost var avant, z := Vue(), Zone(x, y, l, h);
      var ligne := 0;
      while ligne < h
        invariant 0 <= ligne <= h
        invariant Valid()
        invariant forall j :: 0 <= j < ligne ==> LigneLue(pixels, l, l, j)
        invariant forall px, py :: avant.Contient(px, py) ==>
          Vue().At(px, py) == (if z.Contient(px, py) && py - y < ligne then PixelLu(pixels, l, l, px - x, py - y)
            else avant.At(px, py))
      {
        var src := Indice(l, 0, ligne);
        if src + l > |pixels| {
          break;
        }
        CopierLigne(data, width, height, x, y + ligne, pixels[src..src + l]);
        ligne := ligne + 1;
      }
      forall px, py | avant.Contient(px, py)
        ensures Vue().At(px, py) == Colle(avant, z, pixels, l).At(px, py)
      {
        if z.Contient(px, py) && py - y >= ligne {
          LignesCroissantes(l, ligne, py - y);
        }
      }
      MemeImage(Vue(), Colle(avant, z, pixels, l));
    }

    /** Paints frames in order. */
    method PeindreTous(trames: seq<Trame>)
      requires Valid()
      modifies data
      ensures Vue() == Miroir.PeintTous(old(Vue()), trames)
    {
      for i := 0 to |trames|
        invariant Vue() == Miroir.PeintTous(old(Vue()), trames[..i])
      {
        var t := trames[i];
        assert trames[..i + 1][..i] == trames[..i];
        PeindreRgba(t.x, t.y, t.image.largeur, t.image.hauteur, t.image.pixels);
      }
      assert trames[..|trames|] == trames;
    }
  }

  class Peintre {
    var image: DecodedImage

    constructor (image: DecodedImage)
      ensures this.image == image
    {
      this.image := image;
    }

    /** Empties the queue into the image, made anew if the screen changed size; says whether anything was painted. */
    method PeindreEnAttente(file: Egfx) returns (peint: bool)
      requires image.Valid() && image.data !in file.Tampons()
      modifies this, image.data, file`trames, file`taille
      ensures image.Valid() && (image == old(image) || fresh(image.data))
      ensures image.Vue() == Miroir.Affiche(old(file.Vue()), old(image.Vue()))
      ensures file.Vue() == old(file.Vue()).(trames := [], taille := None)
      ensures peint <==> old(file.trames) != []
    {
      var trames, taille := file.trames, file.taille;
      file.trames, file.taille := [], None;
      if taille.Some? && taille.value != (image.width, image.height) {
        image := new DecodedImage(taille.value.0, taille.value.1);
      }
      assert image.Vue() == Miroir.Redimensionne(old(image.Vue()), taille);
      image.PeindreTous(trames);
      peint := trames != [];
    }
  }
}
