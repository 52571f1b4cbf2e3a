/** The font table of hybrid.py: the `__main__` loop that packs every glyph
    into one blob and records `char_set` and `char_end`, and the `get_ch`
    lookup that the generated module runs over them.

    The blob file is an append-only byte sequence; its length is what
    `f.tell()` reports after each write. */
module FontTable {
  import opened Bits
  import opened Packer

  /** One entry of the font, in the order the font enumerates them. */
  datatype Glyph = Glyph(ch: char, bitmap: Bitmap)

  /** What one run produces: `_char_set`, `_char_end` and the blob file. */
  datatype Table = Table(charSet: seq<char>, charEnd: seq<nat>, blob: seq<bv8>)

  /** Why `get_ch` raises: `list.index` finds no entry (ValueError), or
      `_char_end` is shorter than `_char_set` (IndexError). */
  datatype LookupError = ValueError | IndexError

  datatype Option<T> = None | Some(value: T)

  datatype Result<T> = Ok(value: T) | Err(error: LookupError)

  /** The character `get_ch` substitutes for one it does not know. */
  const Fallback: char := '?'

  predicate AllValid(glyphs: seq<Glyph>) {
    forall i :: 0 <= i < |glyphs| ==> glyphs[i].bitmap.Valid()
  }

  /** No character occurs twice (the font is a dictionary keyed by character). */
  predicate DistinctChars(glyphs: seq<Glyph>) {
    forall i, j :: 0 <= i < j < |glyphs| ==> glyphs[i].ch != glyphs[j].ch
  }

  // ---------------------------------------------------------------------
  // Building the table

  /** The table after the loop has handled `glyphs`: append the character,
      write the packed bytes, append the new file position. */
  function TableOf(glyphs: seq<Glyph>): Table
    requires AllValid(glyphs)
    decreases |glyphs|
  {
    if glyphs == [] then Table([], [], [])
    else
      var t := TableOf(glyphs[..|glyphs| - 1]);
      var g := glyphs[|glyphs| - 1];
      var blob := t.blob + Hybrid(g.bitmap);
      Table(t.charSet + [g.ch], t.charEnd + [|blob|], blob)
  }

  /** Every glyph's packed bytes, one after the other. */
  function Concat(glyphs: seq<Glyph>): seq<bv8>
    requires AllValid(glyphs)
  {
    if glyphs == [] then [] else Hybrid(glyphs[0].bitmap) + Concat(glyphs[1..])
  }

  /** Where entry `i`'s bytes start: the previous end, or 0 for the first. */
  function Start(t: Table, i: nat): nat
    requires i <= |t.charEnd|
  {
    if i > 0 then t.charEnd[i - 1] else 0
  }

  /** The `__main__` loop over `fnt.items()`. */
  method BuildTable(glyphs: seq<Glyph>) returns (charSet: seq<char>, charEnd: seq<nat>, blob: seq<bv8>)
    requires AllValid(glyphs)
    ensures Table(charSet, charEnd, blob) == TableOf(glyphs)
    ensures |charSet| == |charEnd| == |glyphs|
    ensures forall i :: 0 <= i < |glyphs| ==> charSet[i] == glyphs[i].ch
    ensures blob == Concat(glyphs)
  {
    charSet, charEnd, blob := [], [], [];
    for i := 0 to |glyphs|
      invariant Table(charSet, charEnd, blob) == TableOf(glyphs[..i])
    {
      var g := glyphs[i];
      charSet := charSet + [g.ch];
      var bytes := GetHybrid(g.bitmap);
      blob := blob + bytes;
      charEnd := charEnd + [|blob|];
      assert glyphs[..i + 1][..i] == glyphs[..i];
    }
    assert glyphs[..|glyphs|] == glyphs;
    TableShape(glyphs);
    TableBlobIsConcat(glyphs);
  }

  // ---------------------------------------------------------------------
  // What the table records

  /** `char_set` lists the characters in enumeration order, `char_end` has
      one entry per character, and the last end is the blob's length. */
  lemma {:induction false} TableShape(glyphs: seq<Glyph>)
    requires AllValid(glyphs)
    ensures |TableOf(glyphs).charSet| == |glyphs|
    ensures |TableOf(glyphs).charEnd| == |glyphs|
    ensures forall i :: 0 <= i < |glyphs| ==> TableOf(glyphs).charSet[i] == glyphs[i].ch
    ensures Start(TableOf(glyphs), |glyphs|) == |TableOf(glyphs).blob|
    decreases |glyphs|
  {
    if glyphs != [] {
      TableShape(glyphs[..|glyphs| - 1]);
    }
  }

  /** Entry `i` owns `blob[start:end]`: the range lies inside the blob, its
      length is the glyph's packed length, and it holds exactly the glyph's
      packed bytes. */
  lemma {:induction false} TableRanges(glyphs: seq<Glyph>, i: nat)
    requires AllValid(glyphs) && i < |glyphs|
    ensures |TableOf(glyphs).charEnd| == |glyphs|
    ensures Start(TableOf(glyphs), i) <= TableOf(glyphs).charEnd[i] <= |TableOf(glyphs).blob|
    ensures TableOf(glyphs).charEnd[i] - Start(TableOf(glyphs), i) == |Hybrid(glyphs[i].bitmap)|
    ensures TableOf(glyphs).blob[Start(TableOf(glyphs), i)..TableOf(glyphs).charEnd[i]] == Hybrid(glyphs[i].bitmap)
    decreases |glyphs|
  {
    var prefix := glyphs[..|glyphs| - 1];
    var t, t' := TableOf(glyphs), TableOf(prefix);
    TableShape(prefix);
    TableShape(glyphs);
    if i < |glyphs| - 1 {
      TableRanges(prefix, i);
      assert t.charEnd[i] == t'.charEnd[i];
      assert Start(t, i) == Start(t', i);
      assert t.blob[Start(t, i)..t.charEnd[i]] == t'.blob[Start(t', i)..t'.charEnd[i]];
    } else {
      assert Start(t, i) == |t'.blob|;
      assert t.blob[|t'.blob|..] == Hybrid(glyphs[i].bitmap);
    }
  }

  /** `char_end` never decreases. */
  lemma {:induction false} CharEndMonotone(glyphs: seq<Glyph>, i: nat, j: nat)
    requires AllValid(glyphs) && i <= j < |glyphs|
    ensures |TableOf(glyphs).charEnd| == |glyphs|
    ensures TableOf(glyphs).charEnd[i] <= TableOf(glyphs).charEnd[j]
    decreases j - i
  {
    TableRanges(glyphs, j);
    if i < j {
      CharEndMonotone(glyphs, i, j - 1);
    }
  }

  /** Glyph ranges do not overlap: an earlier entry ends no later than a
      later one starts. */
  lemma RangesDisjoint(glyphs: seq<Glyph>, i: nat, j: nat)
    requires AllValid(glyphs) && i < j < |glyphs|
    ensures |TableOf(glyphs).charEnd| == |glyphs|
    ensures TableOf(glyphs).charEnd[i] <= Start(TableOf(glyphs), j)
  {
    CharEndMonotone(glyphs, i, j - 1);
  }

  lemma {:induction false} ConcatSnoc(glyphs: seq<Glyph>, g: Glyph)
    requires AllValid(glyphs) && g.bitmap.Valid()
    ensures AllValid(glyphs + [g])
    ensures Concat(glyphs + [g]) == Concat(glyphs) + Hybrid(g.bitmap)
    decreases |glyphs|
  {
    if glyphs != [] {
      assert (glyphs + [g])[1..] == glyphs[1..] + [g];
      ConcatSnoc(glyphs[1..], g);
    }
  }

  /** The blob is the concatenation of every glyph's packed bytes, in order,
      with nothing between them. */
  lemma {:induction false} TableBlobIsConcat(glyphs: seq<Glyph>)
    requires AllValid(glyphs)
    ensures TableOf(glyphs).blob == Concat(glyphs)
    decreases |glyphs|
  {
    if glyphs != [] {
      var prefix := glyphs[..|glyphs| - 1];
      TableBlobIsConcat(prefix);
      ConcatSnoc(prefix, glyphs[|glyphs| - 1]);
      assert prefix + [glyphs[|glyphs| - 1]] == glyphs;
    }
  }

  // ---------------------------------------------------------------------
  // The lookup of the generated module

  /** `list.index`: the position of the first occurrence of `c`. */
  function IndexOf(s: seq<char>, c: char): (r: Option<nat>)
    ensures r.Some? <==> c in s
    ensures r.Some? ==> r.value < |s| && s[r.value] == c
    ensures r.Some? ==> forall j :: 0 <= j < r.value ==> s[j] != c
  {
    if s == [] then None
    else if s[0] == c then Some(0)
    else match IndexOf(s[1..], c)
      case None => None
      case Some(j) => Some(j + 1)
  }

  /** Python's `s[start:end]` for non-negative bounds: both are clamped to
      the length, and a start past the end gives an empty slice. */
  function Slice(s: seq<bv8>, start: nat, end: nat): (r: seq<bv8>)
    ensures start <= end <= |s| ==> r == s[start..end]
    ensures end <= start ==> r == []
    ensures start <= |s| <= end ==> r == s[start..]
    ensures |s| <= start ==> r == []
    ensures |r| <= |s|
    ensures exists lo, hi :: 0 <= lo <= hi <= |s| && r == s[lo..hi]
  {
    var lo := if start < |s| then start else |s|;
    var hi := if end < |s| then end else |s|;
    if lo <= hi then s[lo..hi] else assert s[0..0] == []; []
  }

  /** `get_ch(ch)`: unknown characters become `'?'`, then the bytes of the
      entry's range are sliced out of the blob. */
  function GetCh(t: Table, ch: char): (r: Result<seq<bv8>>)
    ensures r == Err(ValueError) <==> ch !in t.charSet && Fallback !in t.charSet
    ensures |t.charEnd| >= |t.charSet| && (ch in t.charSet || Fallback in t.charSet) ==> r.Ok?
    ensures r.Ok? ==> |r.value| <= |t.blob|
  {
    var key := if ch in t.charSet then ch else Fallback;
    match IndexOf(t.charSet, key)
    case None => Err(ValueError)
    case Some(i) =>
      if i >= |t.charEnd| then Err(IndexError)
      else
        Ok(Slice(t.blob, Start(t, i), t.charEnd[i]))
  }

  /** Whatever `get_ch` returns is a contiguous run of the blob. */
  lemma GetChInBlob(t: Table, ch: char)
    ensures GetCh(t, ch).Ok? ==>
      exists lo, hi :: 0 <= lo <= hi <= |t.blob| && GetCh(t, ch).value == t.blob[lo..hi]
  {
  }

  // ---------------------------------------------------------------------
  // Round trip: building the table, then looking a character up

  /** `list.index` returns the first position holding `c`. */
  lemma IndexOfFirst(s: seq<char>, c: char, i: nat)
    requires i < |s| && s[i] == c
    requires forall j :: 0 <= j < i ==> s[j] != c
    ensures IndexOf(s, c) == Some(i)
  {
    assert c in s;
  }

  /** Looking up the character of entry `i` (its first occurrence) gives
      back exactly that glyph's packed bytes. */
  lemma GetChKnown(glyphs: seq<Glyph>, i: nat)
    requires AllValid(glyphs) && i < |glyphs|
    requires forall j :: 0 <= j < i ==> glyphs[j].ch != glyphs[i].ch
    ensures GetCh(TableOf(glyphs), glyphs[i].ch) == Ok(Hybrid(glyphs[i].bitmap))
  {
    var t := TableOf(glyphs);
    TableShape(glyphs);
    TableRanges(glyphs, i);
    IndexOfFirst(t.charSet, glyphs[i].ch, i);
    assert glyphs[i].ch in t.charSet;
    assert Slice(t.blob, Start(t, i), t.charEnd[i]) == Hybrid(glyphs[i].bitmap);
  }

  /** With one entry per character, every character of the font looks up
      its own glyph. */
  lemma GetChRoundTrip(glyphs: seq<Glyph>)
    requires AllValid(glyphs) && DistinctChars(glyphs)
    ensures forall i :: 0 <= i < |glyphs| ==> GetCh(TableOf(glyphs), glyphs[i].ch) == Ok(Hybrid(glyphs[i].bitmap))
  {
    forall i | 0 <= i < |glyphs|
      ensures GetCh(TableOf(glyphs), glyphs[i].ch) == Ok(Hybrid(glyphs[i].bitmap))
    {
      GetChKnown(glyphs, i);
    }
  }

  /** A character is in `char_set` exactly when some glyph has it. */
  lemma CharSetMembers(glyphs: seq<Glyph>, ch: char)
    requires AllValid(glyphs)
    ensures ch in TableOf(glyphs).charSet <==> exists j :: 0 <= j < |glyphs| && glyphs[j].ch == ch
  {
    var t := TableOf(glyphs);
    TableShape(glyphs);
    if ch in t.charSet {
      var k :| 0 <= k < |t.charSet| && t.charSet[k] == ch;
      assert glyphs[k].ch == ch;
    }
    if exists j :: 0 <= j < |glyphs| && glyphs[j].ch == ch {
      var k :| 0 <= k < |glyphs| && glyphs[k].ch == ch;
      assert t.charSet[k] == ch;
    }
  }

  /** A character the font lacks looks up as `'?'` does: the `'?'` glyph's
      bytes when the font has one, ValueError otherwise. */
  lemma GetChFallback(glyphs: seq<Glyph>, ch: char)
    requires AllValid(glyphs)
    requires forall j :: 0 <= j < |glyphs| ==> glyphs[j].ch != ch
    ensures GetCh(TableOf(glyphs), ch) == GetCh(TableOf(glyphs), Fallback)
    ensures (forall j :: 0 <= j < |glyphs| ==> glyphs[j].ch != Fallback) ==> GetCh(TableOf(glyphs), ch) == Err(ValueError)
  {
    var t := TableOf(glyphs);
    CharSetMembers(glyphs, ch);
    assert ch !in t.charSet;
    UnknownIsFallback(t, ch);
    if forall j :: 0 <= j < |glyphs| ==> glyphs[j].ch != Fallback {
      CharSetMembers(glyphs, Fallback);
      assert Fallback !in t.charSet;
    }
  }

  /** On any table, a character missing from `char_set` is looked up as `'?'`. */
  lemma UnknownIsFallback(t: Table, ch: char)
    requires ch !in t.charSet
    ensures GetCh(t, ch) == GetCh(t, Fallback)
  {
  }

  /** When the font has a `'?'` glyph (first at entry `q`), a character the
      font lacks looks up as that glyph's packed bytes. */
  lemma GetChFallbackGlyph(glyphs: seq<Glyph>, ch: char, q: nat)
    requires AllValid(glyphs)
    requires forall j :: 0 <= j < |glyphs| ==> glyphs[j].ch != ch
    requires q < |glyphs| && glyphs[q].ch == Fallback
    requires forall j :: 0 <= j < q ==> glyphs[j].ch != Fallback
    ensures GetCh(TableOf(glyphs), ch) == Ok(Hybrid(glyphs[q].bitmap))
  {
    GetChFallback(glyphs, ch);
    GetChKnown(glyphs, q);
  }

  /** An example font: `'0'` and `'1'` blank 1x8 glyphs and a solid 1x8
      `'?'` give the blob FF FF 00, ends 1, 2, 3, and an unknown character
      looks up as the `'?'` byte 00. */
  lemma ClockFontExample()
    ensures AllValid(ExampleGlyphs())
    ensures TableOf(ExampleGlyphs()) == Table(['0', '1', '?'], [1, 2, 3], [0xFF, 0xFF, 0x00])
    ensures GetCh(TableOf(ExampleGlyphs()), '5') == Ok([0x00])
  {
    ExampleTable();
    ExampleBitmapsPack();
    GetChFallbackGlyph(ExampleGlyphs(), '5', 2);
  }

  lemma ExampleTable()
    ensures AllValid(ExampleGlyphs())
    ensures TableOf(ExampleGlyphs()) == Table(['0', '1', '?'], [1, 2, 3], [0xFF, 0xFF, 0x00])
  {
    var gs := ExampleGlyphs();
    ExampleBitmapsPack();
    assert gs[..1][..0] == [] && gs[..1][0] == gs[0];
    assert TableOf(gs[..1][..0]) == Table([], [], []);
    var t1 := TableOf(gs[..1]);
    assert t1 == Table(['0'], [1], [0xFF]);
    assert gs[..2][..1] == gs[..1];
    var t2 := TableOf(gs[..2]);
    assert t2 == Table(t1.charSet + ['1'], t1.charEnd + [2], t1.blob + [0xFF]);
    assert gs[..3] == gs;
    var t3 := TableOf(gs);
    assert t3 == Table(t2.charSet + ['?'], t2.charEnd + [3], t2.blob + [0x00]);
  }

  lemma ExampleBitmapsPack()
    ensures Blank8().Valid() && Hybrid(Blank8()) == [0xFF]
    ensures Solid8().Valid() && Hybrid(Solid8()) == [0x00]
  {
    HybridLength(Blank8());
    BlankPacksToFF(Blank8());
    HybridLength(Solid8());
    FullBandsPackToZero(Solid8());
  }

  /** A 1-wide, 8-high bitmap with no pixel set. */
  function Blank8(): Bitmap {
    Bitmap(1, 8, [0, 0, 0, 0, 0, 0, 0, 0])
  }

  /** A 1-wide, 8-high bitmap with every pixel set. */
  function Solid8(): Bitmap {
    Bitmap(1, 8, [1, 1, 1, 1, 1, 1, 1, 1])
  }

  function ExampleGlyphs(): seq<Glyph> {
    [Glyph('0', Blank8()), Glyph('1', Blank8()), Glyph('?', Solid8())]
  }
}
