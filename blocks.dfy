/**
 * The simplified block table of glyph-catcher and the first-match lookup
 * over it. Every range is half-open, `[lo, hi)`, like Python's `range`.
 */
module UnicodeBlocks {

  datatype BlockRange = BlockRange(lo: int, hi: int, name: string)

  const UNKNOWN_BLOCK: string := "Unknown Block"

  /** The table, in its declaration (and so iteration) order. */
  const UNICODE_BLOCKS: seq<BlockRange> := [
    BlockRange(0x0000, 0x0080, "Basic Latin"),
    BlockRange(0x0080, 0x0100, "Latin-1 Supplement"),
    BlockRange(0x0100, 0x0180, "Latin Extended-A"),
    BlockRange(0x0180, 0x0250, "Latin Extended-B"),
    BlockRange(0x0370, 0x0400, "Greek and Coptic"),
    BlockRange(0x0400, 0x0500, "Cyrillic"),
    BlockRange(0x2000, 0x2070, "General Punctuation"),
    BlockRange(0x2190, 0x2200, "Arrows"),
    BlockRange(0x2200, 0x2300, "Mathematical Operators"),
    BlockRange(0x2600, 0x2700, "Miscellaneous Symbols"),
    BlockRange(0x1F600, 0x1F650, "Emoticons")
  ]

  /** `code_point in range(lo, hi)`. */
  predicate InRange(b: BlockRange, cp: int) {
    b.lo <= cp < b.hi
  }

  /** No two distinct entries of the table overlap, whatever their positions. */
  predicate Disjoint(t: seq<BlockRange>) {
    forall a, b :: a in t && b in t && a != b ==> a.hi <= b.lo || b.hi <= a.lo
  }

  /** Entries are non-empty and listed in increasing, non-overlapping order. */
  predicate Ascending(t: seq<BlockRange>) {
    (forall i :: 0 <= i < |t| ==> t[i].lo < t[i].hi) &&
    (forall i :: 0 <= i < |t| - 1 ==> t[i].hi <= t[i + 1].lo)
  }

  /** The loop over the table: the name of the first range containing `cp`. */
  function FirstMatch(t: seq<BlockRange>, cp: int): (r: string)
    ensures (exists b :: b in t && InRange(b, cp) && r == b.name) ||
            (r == UNKNOWN_BLOCK && forall b :: b in t ==> !InRange(b, cp))
  {
    if t == [] then UNKNOWN_BLOCK
    else if InRange(t[0], cp) then t[0].name
    else
      var r := FirstMatch(t[1..], cp);
      assert forall b :: b in t[1..] ==> b in t;
      r
  }

  /** `get_unicode_block`. */
  function GetUnicodeBlock(cp: int): string {
    FirstMatch(UNICODE_BLOCKS, cp)
  }

  lemma {:induction false} AscendingDisjoint(t: seq<BlockRange>)
    requires Ascending(t)
    ensures Disjoint(t)
  {
    if t != [] {
      var rest := t[1..];
      assert Ascending(rest);
      AscendingDisjoint(rest);
      forall b | b in rest
        ensures t[0].hi <= b.lo
      {
        var j :| 0 <= j < |rest| && rest[j] == b;
        AscendingFrom(t, 0, j + 1);
      }
      forall a, b | a in t && b in t && a != b
        ensures a.hi <= b.lo || b.hi <= a.lo
      {
        assert a == t[0] || a in rest;
        assert b == t[0] || b in rest;
      }
    }
  }

  /** In an ascending table an entry ends before any later one starts. */
  lemma {:induction false} AscendingFrom(t: seq<BlockRange>, i: nat, j: nat)
    requires Ascending(t) && i < j < |t|
    ensures t[i].hi <= t[j].lo
    decreases j - i
  {
    if j > i + 1 {
      AscendingFrom(t, i + 1, j);
    }
  }

  lemma TableDisjoint()
    ensures Disjoint(UNICODE_BLOCKS)
  {
    assert Ascending(UNICODE_BLOCKS);
    AscendingDisjoint(UNICODE_BLOCKS);
  }

  /** In a table of disjoint ranges the first match is the only match. */
  lemma {:induction false} FirstMatchDisjoint(t: seq<BlockRange>, b: BlockRange, cp: int)
    requires Disjoint(t) && b in t && InRange(b, cp)
    ensures FirstMatch(t, cp) == b.name
  {
    if t[0] != b {
      assert Disjoint(t[1..]) by {
        assert forall x :: x in t[1..] ==> x in t;
      }
      FirstMatchDisjoint(t[1..], b, cp);
    }
  }

  /**
   * The block of a code point is the name of the range that contains it,
   * and "Unknown Block" exactly when no range does.
   */
  lemma GetUnicodeBlockCorrect(cp: int)
    ensures forall b :: b in UNICODE_BLOCKS && InRange(b, cp) ==> GetUnicodeBlock(cp) == b.name
    ensures GetUnicodeBlock(cp) == UNKNOWN_BLOCK <==> forall b :: b in UNICODE_BLOCKS ==> !InRange(b, cp)
  {
    TableDisjoint();
    NamesKnown();
    forall b | b in UNICODE_BLOCKS && InRange(b, cp)
      ensures GetUnicodeBlock(cp) == b.name
    {
      FirstMatchDisjoint(UNICODE_BLOCKS, b, cp);
    }
  }

  /** No range of the table is itself called "Unknown Block". */
  lemma NamesKnown()
    ensures forall b :: b in UNICODE_BLOCKS ==> b.name != UNKNOWN_BLOCK
  {
    forall i | 0 <= i < |UNICODE_BLOCKS|
      ensures UNICODE_BLOCKS[i].name != UNKNOWN_BLOCK
    {
      assert UNICODE_BLOCKS[i].name[0] != 'U';
    }
  }

  /** Walking the same ranges in any other order gives the same block. */
  lemma OrderIndependent(u: seq<BlockRange>, cp: int)
    requires forall b :: b in u <==> b in UNICODE_BLOCKS
    ensures FirstMatch(u, cp) == GetUnicodeBlock(cp)
  {
    TableDisjoint();
    assert Disjoint(u);
    if b :| b in UNICODE_BLOCKS && InRange(b, cp) {
      FirstMatchDisjoint(UNICODE_BLOCKS, b, cp);
      FirstMatchDisjoint(u, b, cp);
    }
  }

  /** The first code point after Latin Extended-B lies in no block of the table. */
  lemma GapStart()
    ensures GetUnicodeBlock(0x250) == UNKNOWN_BLOCK
  {
  }

  /** Nor does the last code point before Greek and Coptic. */
  lemma GapEnd()
    ensures GetUnicodeBlock(0x36F) == UNKNOWN_BLOCK
  {
  }

  /** A code point inside Arrows, and one inside Basic Latin. */
  lemma NamedExamples()
    ensures GetUnicodeBlock(0x2192) == "Arrows"
    ensures GetUnicodeBlock(0x41) == "Basic Latin"
  {
  }

  /** No lookup yields `"all"`: it names no range, and it is not "Unknown Block". */
  lemma NoBlockCalledAll(cp: int)
    ensures GetUnicodeBlock(cp) != "all"
  {
    forall i | 0 <= i < |UNICODE_BLOCKS|
      ensures UNICODE_BLOCKS[i].name != "all"
    {
      assert |UNICODE_BLOCKS[i].name| > 3;
    }
  }
}
