/**
 * The hashtag decorator strategy of the rich-text editor component:
 * `findHashTagEntities` runs the global pattern `/#[\w\u0590-\u05ff]+/g`
 * over the text of a content block with repeated `exec` calls and hands each
 * match to the decorator callback as a half-open range `[start, end)`.
 *
 * The pattern object is a `TagPattern` whose `lastIndex` field is the
 * position where the next `exec` resumes; the callback is modelled by the
 * sequence of ranges it receives, in the order it receives them.
 */
module RichText {
  import opened HashTagPattern

  datatype Option<T> = None | Some(value: T)

  /** What `exec` returns on success: the index of the match and the matched code units. */
  datatype Match = Match(index: nat, matched: seq<CodeUnit>)

  /** `m` is the match `exec` must find when the search resumes at `from`. */
  ghost predicate IsLeftmostMatch(text: seq<CodeUnit>, from: nat, m: Match) {
    && from <= m.index
    && IsHashTag(text, MatchRange(m))
    && m.matched == text[m.index..m.index + |m.matched|]
    && (forall q :: from <= q < m.index ==> !StartsTag(text, q))
  }

  /** The regular expression `/#[\w\u0590-\u05ff]+/g`, with the state its global flag gives it. */
  class TagPattern {
    var lastIndex: nat

    constructor ()
      ensures lastIndex == 0
    {
      lastIndex := 0;
    }

    /**
     * `RegExp.prototype.exec` for this pattern: the leftmost match at or
     * after `lastIndex`, after which `lastIndex` is the end of the match;
     * when there is none, `lastIndex` goes back to 0.
     */
    method Exec(text: seq<CodeUnit>) returns (m: Option<Match>)
      modifies this
      ensures m.Some? ==> IsLeftmostMatch(text, old(lastIndex), m.value)
      ensures m.None? <==> forall q :: old(lastIndex) <= q < |text| ==> !StartsTag(text, q)
      ensures lastIndex == if m.Some? then MatchRange(m.value).end else 0
    {
      var p := lastIndex;
      while p + 1 < |text| && !StartsTag(text, p)
        invariant lastIndex <= p
        invariant forall q :: lastIndex <= q < p ==> !StartsTag(text, q)
        decreases |text| - p
      {
        p := p + 1;
      }
      if p + 1 < |text| {
        // `#` and one tag character matched; the `+` takes every further tag character.
        var e := p + 2;
        while e < |text| && IsTagChar(text[e])
          invariant p + 2 <= e <= |text|
          invariant forall k :: p < k < e ==> IsTagChar(text[k])
          decreases |text| - e
        {
          e := e + 1;
        }
        m := Some(Match(p, text[p..e]));
        lastIndex := e;
      } else {
        m := None;
        lastIndex := 0;
      }
    }
  }

  /** The range a match covers, as the callback receives it. */
  function MatchRange(m: Match): Range {
    Range(m.index, m.index + |m.matched|)
  }

  /**
   * `findHashTagEntities`: a fresh global pattern is run over the text until
   * `exec` fails, and every match is passed on as `[index, index + length)`.
   * The ranges passed on are exactly those of the reference scanner: the
   * hashtags of the text, each once, from left to right.
   */
  method FindHashTagEntities(text: seq<CodeUnit>) returns (ranges: seq<Range>)
    ensures ranges == HashTags(text)
    ensures forall r :: r in ranges <==> IsHashTag(text, r)
    ensures Ordered(ranges)
  {
    var reg := new TagPattern();
    ranges := [];
    var matchArr := reg.Exec(text);
    ResumeAt(text, 0, matchArr);
    while matchArr.Some?
      invariant matchArr.Some? ==>
        && IsHashTag(text, MatchRange(matchArr.value))
        && reg.lastIndex == MatchRange(matchArr.value).end
        && ranges + TagsFrom(text, matchArr.value.index) == HashTags(text)
      invariant matchArr.None? ==> ranges == HashTags(text)
      decreases if matchArr.Some? then |text| + 1 - matchArr.value.index else 0
    {
      var r := MatchRange(matchArr.value);
      LeftmostStep(text, r.start, r);
      ranges := ranges + [r];
      assert ranges + TagsFrom(text, r.end) == HashTags(text);
      matchArr := reg.Exec(text);
      ResumeAt(text, r.end, matchArr);
    }
    forall r ensures r in ranges <==> IsHashTag(text, r) {
      HashTagsExact(text, r);
    }
    HashTagsOrdered(text);
  }

  /**
   * What an `exec` that resumes at `from` tells about the search from there:
   * nothing is left when it fails, and otherwise the search continues at the match.
   */
  lemma ResumeAt(text: seq<CodeUnit>, from: nat, m: Option<Match>)
    requires m.Some? ==> IsLeftmostMatch(text, from, m.value)
    requires m.None? <==> forall q :: from <= q < |text| ==> !StartsTag(text, q)
    ensures m.None? ==> TagsFrom(text, from) == []
    ensures m.Some? ==> from <= m.value.index && IsHashTag(text, MatchRange(m.value))
    ensures m.Some? ==> TagsFrom(text, from) == TagsFrom(text, m.value.index)
  {
    if m.None? {
      NoStartsNoTags(text, from);
    } else {
      SkipNonStarts(text, from, m.value.index);
    }
  }
}
