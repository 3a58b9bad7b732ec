/**
 * The hashtag pattern of the rich-text editor, `/#[\w\u0590-\u05ff]+/g`, as a
 * specification over UTF-16 code units: the tag-character class, the greedy
 * run of tag characters, a declarative notion of "this range is a hashtag",
 * and a reference scanner `HashTags` that reports the non-overlapping,
 * left-to-right matches of the pattern. The lemmas show that the reference
 * scanner reports exactly the hashtags of the text, in increasing order,
 * and that these two facts determine its output.
 */
module HashTagPattern {

  /** A UTF-16 code unit, the element of a JavaScript string. */
  newtype CodeUnit = x: int | 0 <= x < 0x1_0000

  const Hash: CodeUnit := 0x23

  /** `\w` of a JavaScript regular expression without the `u` and `i` flags. */
  predicate IsWordChar(c: CodeUnit) {
    (0x30 <= c <= 0x39)        // 0-9
    || (0x41 <= c <= 0x5A)     // A-Z
    || (0x61 <= c <= 0x7A)     // a-z
    || c == 0x5F               // _
  }

  /** A code unit of the Hebrew block U+0590..U+05FF. */
  predicate IsHebrew(c: CodeUnit) {
    0x0590 <= c <= 0x05FF
  }

  /** The character class `[\w\u0590-\u05ff]`. */
  predicate IsTagChar(c: CodeUnit) {
    IsWordChar(c) || IsHebrew(c)
  }

  lemma HashIsNotTagChar()
    ensures !IsTagChar(Hash)
  {
  }

  /** A half-open range `[start, end)` of code units, as handed to the decorator callback. */
  datatype Range = Range(start: nat, end: nat)

  /** The pattern can start matching at `p`: a `#` followed by at least one tag character. */
  predicate StartsTag(text: seq<CodeUnit>, p: nat) {
    p + 1 < |text| && text[p] == Hash && IsTagChar(text[p + 1])
  }

  /** The range `r` is a hashtag of `text`: `#`, then a maximal, non-empty run of tag characters. */
  ghost predicate IsHashTag(text: seq<CodeUnit>, r: Range) {
    && r.start + 2 <= r.end <= |text|
    && text[r.start] == Hash
    && (forall k :: r.start < k < r.end ==> IsTagChar(text[k]))
    && (r.end == |text| || !IsTagChar(text[r.end]))
  }

  /** Ranges reported in increasing order, each one starting at or after the end of the one before. */
  ghost predicate Ordered(rs: seq<Range>) {
    forall j, k :: 0 <= j < k < |rs| ==> rs[j].end <= rs[k].start
  }

  /** The end of the greedy run of tag characters that begins at `i`. */
  function RunEnd(text: seq<CodeUnit>, i: nat): (e: nat)
    requires i <= |text|
    ensures i <= e <= |text|
    ensures forall k :: i <= k < e ==> IsTagChar(text[k])
    ensures e == |text| || !IsTagChar(text[e])
    decreases |text| - i
  {
    if i < |text| && IsTagChar(text[i]) then RunEnd(text, i + 1) else i
  }

  /**
   * The matches of the global pattern when its search resumes at `i`:
   * the leftmost match at or after `i`, then the matches after its end.
   */
  function TagsFrom(text: seq<CodeUnit>, i: nat): (rs: seq<Range>)
    decreases |text| - i
  {
    if i + 1 >= |text| then []
    else if StartsTag(text, i) then
      var e := RunEnd(text, i + 1);
      [Range(i, e)] + TagsFrom(text, e)
    else TagsFrom(text, i + 1)
  }

  /** The ranges the editor decorates as hashtags in a block of text. */
  function HashTags(text: seq<CodeUnit>): (rs: seq<Range>) {
    TagsFrom(text, 0)
  }

  /** A hashtag is exactly a tag start together with the end of the run after it. */
  lemma HashTagAt(text: seq<CodeUnit>, r: Range)
    ensures IsHashTag(text, r) <==> StartsTag(text, r.start) && r.end == RunEnd(text, r.start + 1)
  {
  }

  /** Skipping positions where no tag starts does not change what is found. */
  lemma {:induction false} SkipNonStarts(text: seq<CodeUnit>, i: nat, p: nat)
    requires i <= p
    requires forall q :: i <= q < p ==> !StartsTag(text, q)
    ensures TagsFrom(text, i) == TagsFrom(text, p)
    decreases p - i
  {
    if i < p {
      SkipNonStarts(text, i + 1, p);
    }
  }

  /** With no tag start at or after `i`, nothing is found. */
  lemma {:induction false} NoStartsNoTags(text: seq<CodeUnit>, i: nat)
    requires forall q :: i <= q < |text| ==> !StartsTag(text, q)
    ensures TagsFrom(text, i) == []
    decreases |text| - i
  {
    if i + 1 < |text| {
      NoStartsNoTags(text, i + 1);
    }
  }

  /**
   * One step of the global search: when the leftmost hashtag at or after `i`
   * is `r`, the search reports `r` and then resumes at its end.
   */
  lemma LeftmostStep(text: seq<CodeUnit>, i: nat, r: Range)
    requires i <= r.start
    requires IsHashTag(text, r)
    requires forall q :: i <= q < r.start ==> !StartsTag(text, q)
    ensures TagsFrom(text, i) == [r] + TagsFrom(text, r.end)
  {
    SkipNonStarts(text, i, r.start);
    HashTagAt(text, r);
  }

  /** Soundness: every reported range is a hashtag at or after the resume point. */
  lemma {:induction false} TagsFromSound(text: seq<CodeUnit>, i: nat, r: Range)
    requires r in TagsFrom(text, i)
    ensures IsHashTag(text, r) && i <= r.start
    decreases |text| - i
  {
    if i + 1 >= |text| {
    } else if StartsTag(text, i) {
      var e := RunEnd(text, i + 1);
      if r != Range(i, e) {
        TagsFromSound(text, e, r);
      }
    } else {
      TagsFromSound(text, i + 1, r);
    }
  }

  /** Completeness: every hashtag at or after the resume point is reported. */
  lemma {:induction false} TagsFromComplete(text: seq<CodeUnit>, i: nat, r: Range)
    requires IsHashTag(text, r) && i <= r.start
    ensures r in TagsFrom(text, i)
    decreases |text| - i
  {
    HashTagAt(text, r);
    if i == r.start {
    } else if StartsTag(text, i) {
      // The run after `i` stops before the `#` at r.start.
      var e := RunEnd(text, i + 1);
      HashIsNotTagChar();
      assert !IsTagChar(text[r.start]);
      assert e <= r.start;
      TagsFromComplete(text, e, r);
    } else {
      TagsFromComplete(text, i + 1, r);
    }
  }

  /** The search from `i` reports ranges in increasing order, without overlap. */
  lemma {:induction false} TagsFromOrdered(text: seq<CodeUnit>, i: nat)
    ensures Ordered(TagsFrom(text, i))
    decreases |text| - i
  {
    if i + 1 >= |text| {
    } else if StartsTag(text, i) {
      var e := RunEnd(text, i + 1);
      var rest := TagsFrom(text, e);
      TagsFromOrdered(text, e);
      forall k | 0 <= k < |rest| ensures e <= rest[k].start {
        TagsFromSound(text, e, rest[k]);
      }
      assert TagsFrom(text, i) == [Range(i, e)] + rest;
    } else {
      TagsFromOrdered(text, i + 1);
    }
  }

  /** The reported ranges are exactly the hashtags of the text. */
  lemma HashTagsExact(text: seq<CodeUnit>, r: Range)
    ensures r in HashTags(text) <==> IsHashTag(text, r)
  {
    if r in HashTags(text) {
      TagsFromSound(text, 0, r);
    }
    if IsHashTag(text, r) {
      TagsFromComplete(text, 0, r);
    }
  }

  /** Every reported range lies inside the text, starts with `#` and covers at least two code units. */
  lemma HashTagsInBounds(text: seq<CodeUnit>, k: nat)
    requires k < |HashTags(text)|
    ensures var r := HashTags(text)[k];
      0 <= r.start < r.start + 2 <= r.end <= |text| && text[r.start] == Hash
  {
    TagsFromSound(text, 0, HashTags(text)[k]);
  }

  /** The reported ranges come left to right and never overlap. */
  lemma HashTagsOrdered(text: seq<CodeUnit>)
    ensures Ordered(HashTags(text))
  {
    TagsFromOrdered(text, 0);
  }

  /** A position starts a reported range exactly when a `#` followed by a tag character stands there. */
  lemma HashTagsStarts(text: seq<CodeUnit>, p: nat)
    ensures (exists r :: r in HashTags(text) && r.start == p) <==> StartsTag(text, p)
  {
    if StartsTag(text, p) {
      var r := Range(p, RunEnd(text, p + 1));
      HashTagAt(text, r);
      HashTagsExact(text, r);
    }
    if r :| r in HashTags(text) && r.start == p {
      HashTagsExact(text, r);
      HashTagAt(text, r);
    }
  }

  /** No `#` followed by a tag character, in particular empty text, yields no ranges, and only then. */
  lemma HashTagsEmpty(text: seq<CodeUnit>)
    ensures HashTags(text) == [] <==> forall p :: 0 <= p < |text| ==> !StartsTag(text, p)
  {
    if forall p :: 0 <= p < |text| ==> !StartsTag(text, p) {
      NoStartsNoTags(text, 0);
    } else {
      var p :| 0 <= p < |text| && StartsTag(text, p);
      HashTagsStarts(text, p);
    }
  }

  /** In an ordered sequence every range other than the first starts at or after the first one's end. */
  lemma OrderedFirst(a: seq<Range>, r: Range)
    requires Ordered(a) && a != []
    ensures r in a ==> r == a[0] || a[0].end <= r.start
  {
  }

  /** The tail of an ordered sequence of non-empty ranges holds every member but the first. */
  lemma OrderedTail(a: seq<Range>, r: Range)
    requires Ordered(a) && a != []
    requires forall x :: x in a ==> x.start < x.end
    ensures r in a[1..] <==> r in a && r != a[0]
  {
  }

  /** Two ordered sequences of non-empty ranges with the same members are equal. */
  lemma {:induction false} OrderedSameMembers(a: seq<Range>, b: seq<Range>)
    requires Ordered(a) && Ordered(b)
    requires forall r :: r in a ==> r.start < r.end
    requires forall r :: r in a <==> r in b
    ensures a == b
    decreases |a|
  {
    assert a == [] <==> b == [] by {
      if a != [] { assert a[0] in b; }
      if b != [] { assert b[0] in a; }
    }
    if a != [] {
      OrderedFirst(a, b[0]);
      OrderedFirst(b, a[0]);
      assert a[0] in b && b[0] in a;
      assert a[0] == b[0];
      forall r ensures r in a[1..] <==> r in b[1..] {
        OrderedTail(a, r);
        OrderedTail(b, r);
      }
      OrderedSameMembers(a[1..], b[1..]);
    }
  }

  /**
   * The output of the scanner is determined by what it promises: any ordered
   * sequence whose members are exactly the hashtags of the text is `HashTags(text)`.
   */
  lemma HashTagsUnique(text: seq<CodeUnit>, rs: seq<Range>)
    requires Ordered(rs)
    requires forall r :: r in rs <==> IsHashTag(text, r)
    ensures rs == HashTags(text)
  {
    forall r ensures r in rs <==> r in HashTags(text) {
      HashTagsExact(text, r);
    }
    HashTagsOrdered(text);
    OrderedSameMembers(rs, HashTags(text));
  }


  /** Adjacent tags such as `#a#b` are reported as two ranges. */
  lemma AdjacentTags()
    ensures HashTags([Hash, 0x61, Hash, 0x62]) == [Range(0, 2), Range(2, 4)]
  {
    var text: seq<CodeUnit> := [Hash, 0x61, Hash, 0x62];
    assert RunEnd(text, 4) == 4;
    assert RunEnd(text, 3) == 4;
    assert TagsFrom(text, 4) == [];
    assert TagsFrom(text, 2) == [Range(2, 4)];
    assert RunEnd(text, 2) == 2;
    assert RunEnd(text, 1) == 2;
  }

  /** A `#` followed by a space is no hashtag. */
  lemma HashThenSpace()
    ensures HashTags([Hash, 0x20, 0x61]) == []
  {
    var text: seq<CodeUnit> := [Hash, 0x20, 0x61];
    assert TagsFrom(text, 2) == [];
    assert !StartsTag(text, 1);
    assert TagsFrom(text, 1) == [];
    assert !StartsTag(text, 0);
  }

  /** In `##a` the tag starts at the second `#`: the first is followed by `#`, which is no tag character. */
  lemma DoubleHash()
    ensures HashTags([Hash, Hash, 0x61]) == [Range(1, 3)]
  {
    var text: seq<CodeUnit> := [Hash, Hash, 0x61];
    assert RunEnd(text, 3) == 3;
    assert RunEnd(text, 2) == 3;
    assert TagsFrom(text, 3) == [];
    assert TagsFrom(text, 1) == [Range(1, 3)];
    assert !IsTagChar(text[1]);
    assert !StartsTag(text, 0);
  }

  /** Hebrew letters are tag characters: `#` then two Hebrew letters then a space tags the first three code units. */
  lemma HebrewTag()
    ensures HashTags([Hash, 0x05E9, 0x05DC, 0x20]) == [Range(0, 3)]
  {
    var text: seq<CodeUnit> := [Hash, 0x05E9, 0x05DC, 0x20];
    assert RunEnd(text, 3) == 3;
    assert RunEnd(text, 2) == 3;
    assert RunEnd(text, 1) == 3;
    assert TagsFrom(text, 4) == [];
    assert TagsFrom(text, 3) == [];
  }
}
