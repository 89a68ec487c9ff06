/**
 * The fixed colour palette of the mosaic generator and the nearest-colour
 * lookup that assigns every cell of the grid one palette key.
 *
 * The palette is a Python dict, whose iteration order is its insertion
 * order; it is modelled as a sequence of (key, colour) entries in that
 * order, so that "the first minimal entry" has a meaning.
 */
module Palette {

  datatype Option<T> = None | Some(value: T)

  /** An RGB triple. Channels are unbounded integers: the averages handed to
      the lookup are Python ints, so no 8-bit wrap-around happens there. */
  datatype Rgb = Rgb(r: int, g: int, b: int)

  type Label = string

  datatype Entry = Entry(key: Label, color: Rgb)

  /** PALETTE, in insertion order. */
  const Entries: seq<Entry> := [
    Entry("1", Rgb(0, 0, 0)), Entry("2", Rgb(64, 64, 64)), Entry("3", Rgb(192, 192, 192)),
    Entry("4", Rgb(101, 67, 33)), Entry("5", Rgb(139, 69, 19)), Entry("6", Rgb(210, 180, 140)),
    Entry("7", Rgb(222, 184, 135)), Entry("8", Rgb(255, 253, 208)), Entry("9", Rgb(139, 0, 0)),
    Entry("A", Rgb(255, 0, 0)), Entry("B", Rgb(255, 69, 0)), Entry("C", Rgb(255, 140, 0)),
    Entry("D", Rgb(255, 255, 0)), Entry("E", Rgb(154, 205, 50)), Entry("F", Rgb(128, 128, 0)),
    Entry("G", Rgb(0, 128, 0)), Entry("H", Rgb(0, 255, 128)), Entry("I", Rgb(0, 100, 0)),
    Entry("J", Rgb(0, 0, 139)), Entry("K", Rgb(0, 0, 255)), Entry("L", Rgb(135, 206, 235)),
    Entry("M", Rgb(173, 216, 230)), Entry("N", Rgb(128, 0, 128)), Entry("O", Rgb(238, 130, 238)),
    Entry("P", Rgb(255, 0, 255)), Entry("Q", Rgb(230, 230, 250)), Entry("R", Rgb(231, 84, 128)),
    Entry("S", Rgb(255, 192, 203))
  ]

  /** PALETTE_KEYS: the keys in insertion order, each once. */
  function Keys(): (ks: seq<Label>)
    ensures |ks| == |Entries|
    ensures forall i :: 0 <= i < |ks| ==> ks[i] == Entries[i].key
    ensures forall key :: key in ks <==> IsKey(key)
    ensures forall i, j :: 0 <= i < j < |ks| ==> ks[i] != ks[j]
  {
    KeysDistinct();
    var ks := seq(|Entries|, i requires 0 <= i < |Entries| => Entries[i].key);
    assert forall i :: 0 <= i < |ks| ==> ks[i] == Entries[i].key;
    ks
  }

  /** `key in PALETTE` */
  predicate IsKey(key: Label)
  {
    exists i :: 0 <= i < |Entries| && Entries[i].key == key
  }

  predicate Is8Bit(c: Rgb)
  {
    0 <= c.r <= 255 && 0 <= c.g <= 255 && 0 <= c.b <= 255
  }

  /** Labels are unique, colours are pairwise distinct and all 8-bit. */
  lemma PaletteWellFormed()
    ensures |Entries| == 28
    ensures forall i, j :: 0 <= i < j < |Entries| ==> Entries[i].key != Entries[j].key
    ensures forall i, j :: 0 <= i < j < |Entries| ==> Entries[i].color != Entries[j].color
    ensures forall i :: 0 <= i < |Entries| ==> Is8Bit(Entries[i].color)
  {
    KeysDistinct();
    ColorsDistinct();
  }

  lemma KeysDistinct()
    ensures forall i, j :: 0 <= i < j < |Entries| ==> Entries[i].key != Entries[j].key
  {
  }

  lemma ColorsDistinct()
    ensures forall i, j :: 0 <= i < j < |Entries| ==> Entries[i].color != Entries[j].color
  {
  }

  /** The position of a key in the palette. */
  function IndexOf(key: Label): (i: nat)
    requires IsKey(key)
    ensures i < |Entries| && Entries[i].key == key
  {
    PaletteWellFormed();
    var i :| 0 <= i < |Entries| && Entries[i].key == key;
    i
  }

  /** `PALETTE[key]` */
  function ColorOf(key: Label): (c: Rgb)
    requires IsKey(key)
    ensures forall i :: 0 <= i < |Entries| && Entries[i].key == key ==> c == Entries[i].color
  {
    PaletteWellFormed();
    Entries[IndexOf(key)].color
  }

  /** Squared Euclidean distance between a palette colour `v` and a query
      colour `c`; zero exactly when the two colours coincide. */
  function SqDist(v: Rgb, c: Rgb): (d: int)
    ensures d >= 0
    ensures d == 0 <==> v == c
  {
    var dr, dg, db := v.r - c.r, v.g - c.g, v.b - c.b;
    dr * dr + dg * dg + db * db
  }

  /** The index of the first entry among `p[..n]` whose colour is at minimal
      distance from `c`: what the scan keeps after seeing `n` entries. */
  function FirstMinIndex(p: seq<Entry>, c: Rgb, n: nat): (k: nat)
    requires 1 <= n <= |p|
    ensures k < n
    ensures forall j :: 0 <= j < n ==> SqDist(p[k].color, c) <= SqDist(p[j].color, c)
    ensures forall j :: 0 <= j < k ==> SqDist(p[k].color, c) < SqDist(p[j].color, c)
  {
    if n == 1 then 0
    else
      var k := FirstMinIndex(p, c, n - 1);
      if SqDist(p[n - 1].color, c) < SqDist(p[k].color, c) then n - 1 else k
  }

  /** The palette index chosen for `c`. */
  function NearestIndex(c: Rgb): (k: nat)
    ensures k < |Entries|
  {
    FirstMinIndex(Entries, c, |Entries|)
  }

  /** The key chosen for `c`. */
  function Nearest(c: Rgb): (key: Label)
    ensures IsKey(key)
  {
    Entries[NearestIndex(c)].key
  }

  /** The chosen key is an argmin of the distance over the whole palette,
      and it is the first one in insertion order: every earlier entry is
      strictly farther away. */
  lemma NearestIsFirstArgmin(c: Rgb)
    ensures IsKey(Nearest(c))
    ensures forall j :: 0 <= j < |Entries| ==>
      SqDist(ColorOf(Nearest(c)), c) <= SqDist(Entries[j].color, c)
    ensures forall j :: 0 <= j < NearestIndex(c) ==>
      SqDist(ColorOf(Nearest(c)), c) < SqDist(Entries[j].color, c)
  {
    var k := NearestIndex(c);
    assert ColorOf(Nearest(c)) == Entries[k].color;
  }

  /** The two properties above determine the chosen index: any index that is
      a minimum and has only strictly farther entries before it is it. */
  lemma FirstArgminUnique(c: Rgb, k: nat)
    requires k < |Entries|
    requires forall j :: 0 <= j < |Entries| ==> SqDist(Entries[k].color, c) <= SqDist(Entries[j].color, c)
    requires forall j :: 0 <= j < k ==> SqDist(Entries[k].color, c) < SqDist(Entries[j].color, c)
    ensures k == NearestIndex(c)
  {
  }

  /** In any palette, the colour of an entry that no other entry shares is
      at distance 0 from that entry only, so the scan picks that entry. */
  lemma FirstMinAtOwnColor(p: seq<Entry>, i: nat)
    requires i < |p|
    requires forall j :: 0 <= j < |p| && j != i ==> p[j].color != p[i].color
    ensures FirstMinIndex(p, p[i].color, |p|) == i
  {
  }

  /** A palette colour maps back to its own key: the 28 colours are
      pairwise distinct. */
  lemma NearestOfPaletteColor(key: Label)
    requires IsKey(key)
    ensures Nearest(ColorOf(key)) == key
  {
    PaletteWellFormed();
    FirstMinAtOwnColor(Entries, IndexOf(key));
  }

  /** The loop of nearest_palette_label over a given palette: a linear scan
      that keeps the best key and distance so far, replacing them only on a
      strictly smaller distance. The result is None only for an empty
      palette. */
  method ScanPalette(palette: seq<Entry>, rgb: Rgb) returns (best: Option<Label>)
    ensures |palette| == 0 ==> best == None
    ensures |palette| > 0 ==> best == Some(palette[FirstMinIndex(palette, rgb, |palette|)].key)
  {
    var bestLabel: Option<Label> := None;
    var bestDist: Option<int> := None;
    for i := 0 to |palette|
      invariant bestDist.None? <==> i == 0
      invariant i == 0 ==> bestLabel.None?
      invariant i > 0 ==> bestLabel == Some(palette[FirstMinIndex(palette, rgb, i)].key)
      invariant i > 0 ==> bestDist == Some(SqDist(palette[FirstMinIndex(palette, rgb, i)].color, rgb))
    {
      var v := palette[i].color;
      var dr, dg, db := v.r - rgb.r, v.g - rgb.g, v.b - rgb.b;
      var dist := dr * dr + dg * dg + db * db;
      if bestDist.None? || dist < bestDist.value {
        bestDist := Some(dist);
        bestLabel := Some(palette[i].key);
      }
    }
    best := bestLabel;
  }

  /** nearest_palette_label: the scan over PALETTE. Since the palette is not
      empty it never returns None; it returns the first nearest key. */
  method NearestPaletteLabel(rgb: Rgb) returns (best: Option<Label>)
    ensures best == Some(Nearest(rgb))
  {
    best := ScanPalette(Entries, rgb);
  }

  /** Pure red, (255, 0, 0), is the colour of key "A" and maps back to it. */
  lemma RedMapsToA()
    ensures IsKey("A") && ColorOf("A") == Rgb(255, 0, 0)
    ensures Nearest(Rgb(255, 0, 0)) == "A"
  {
    assert Entries[9] == Entry("A", Rgb(255, 0, 0));
    NearestOfPaletteColor("A");
  }
}
