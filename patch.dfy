/** `applyReplacements`: splicing the planned modifications into the file's text. Every
    modification's offsets are measured on the ORIGINAL text; the source reverses the list in
    place and splices right to left, so that each splice indexes only into text no earlier
    splice has touched. `Patched` is the reference meaning, the original text with each
    range replaced by its content, defined without any reordering. */
module Patch {

  /** `Modification`: the text in [startPosition, endPosition) becomes `content`. */
  datatype Modification = Modification(startPosition: nat, endPosition: nat, content: string)

  /** JavaScript `s.slice(0, n)` for `n >= 0`: clamps `n` to the length. */
  function SliceTo(s: string, n: nat): string
  {
    if n <= |s| then s[..n] else s
  }

  /** JavaScript `s.slice(n)` for `n >= 0`: empty once `n` passes the end. */
  function SliceFrom(s: string, n: nat): string
  {
    if n <= |s| then s[n..] else []
  }

  /** One iteration of the loop: `source.slice(0, start) + content + source.slice(end)`. */
  function Replace(source: string, m: Modification): (r: string)
    ensures m.startPosition <= m.endPosition <= |source| ==>
              && |r| == |source| - (m.endPosition - m.startPosition) + |m.content|
              && r[..m.startPosition] == source[..m.startPosition]
              && r[m.startPosition..m.startPosition + |m.content|] == m.content
              && r[m.startPosition + |m.content|..] == source[m.endPosition..]
    ensures |source| <= m.startPosition && |source| <= m.endPosition ==> r == source + m.content
  {
    SliceTo(source, m.startPosition) + m.content + SliceFrom(source, m.endPosition)
  }

  /** The modifications applied one after another, each to the text the previous ones
      produced, in the order given. */
  function ApplyInSequence(source: string, ms: seq<Modification>): string
    decreases |ms|
  {
    if ms == [] then source
    else Replace(ApplyInSequence(source, ms[..|ms| - 1]), ms[|ms| - 1])
  }

  function Reversed<T>(s: seq<T>): (r: seq<T>)
    ensures |r| == |s|
    ensures forall i :: 0 <= i < |s| ==> r[i] == s[|s| - 1 - i]
  {
    if s == [] then [] else Reversed(s[1..]) + [s[0]]
  }

  /** Ranges inside a text of length `size`, in ascending order and pairwise disjoint. */
  predicate WellFormed(ms: seq<Modification>, size: nat)
  {
    && (forall i :: 0 <= i < |ms| ==> ms[i].startPosition <= ms[i].endPosition <= size)
    && (forall i, j :: 0 <= i < j < |ms| ==> ms[i].endPosition <= ms[j].startPosition)
  }

  /** Where the untouched text after `from` stops: the first range's start, or the end. */
  function NextStart(ms: seq<Modification>, size: nat): nat
  {
    if ms == [] then size else ms[0].startPosition
  }

  /** The original text from `from` on, each range replaced by its content. */
  function Splice(source: string, ms: seq<Modification>, from: nat): string
    requires WellFormed(ms, |source|)
    requires from <= NextStart(ms, |source|)
    decreases |ms|
  {
    if ms == [] then source[from..]
    else source[from..ms[0].startPosition] + ms[0].content + Splice(source, ms[1..], ms[0].endPosition)
  }

  /** The whole original text with each range replaced by its content. */
  function Patched(source: string, ms: seq<Modification>): string
    requires WellFormed(ms, |source|)
  {
    Splice(source, ms, 0)
  }

  /** What each modification adds to the length of the text. */
  function Growth(ms: seq<Modification>): int
  {
    if ms == [] then 0
    else |ms[0].content| - (ms[0].endPosition - ms[0].startPosition) + Growth(ms[1..])
  }

  lemma SuffixWellFormed(ms: seq<Modification>, size: nat, k: nat)
    requires WellFormed(ms, size) && k <= |ms|
    ensures WellFormed(ms[k..], size)
  {
    forall i, j | 0 <= i < j < |ms| - k
      ensures ms[k..][i].endPosition <= ms[k..][j].startPosition
    {
      assert ms[k..][i] == ms[k + i] && ms[k..][j] == ms[k + j];
    }
  }

  /** Untouched text before the first range can be split off the front. */
  lemma SpliceSplit(source: string, ms: seq<Modification>, a: nat, b: nat)
    requires WellFormed(ms, |source|)
    requires a <= b <= NextStart(ms, |source|)
    ensures Splice(source, ms, a) == source[a..b] + Splice(source, ms, b)
  {
    if ms == [] {
      assert source[a..] == source[a..b] + source[b..];
    } else {
      SuffixWellFormed(ms, |source|, 1);
      SplitFront(source, a, b, ms[0].startPosition, ms[0].content, Splice(source, ms[1..], ms[0].endPosition));
    }
  }

  lemma SplitFront(x: string, a: nat, b: nat, s: nat, c: string, r: string)
    requires a <= b <= s <= |x|
    ensures x[a..s] + c + r == x[a..b] + (x[b..s] + c + r)
  {
    assert x[a..s] == x[a..b] + x[b..s];
  }

  /** The step that makes right-to-left application work: once the ranges after the first
      have been spliced in, the text still begins with the original text up to the next
      range, so the first range's original offsets select exactly that range. */
  lemma ReplaceBeforeSplice(source: string, ms: seq<Modification>)
    requires WellFormed(ms, |source|) && ms != []
    ensures WellFormed(ms[1..], |source|)
    ensures Replace(Splice(source, ms[1..], 0), ms[0]) == Splice(source, ms, 0)
  {
    SuffixWellFormed(ms, |source|, 1);
    var m := ms[0];
    var tail := ms[1..];
    assert m.endPosition <= NextStart(tail, |source|) by {
      if tail != [] {
        assert tail[0] == ms[1];
      }
    }
    var after := Splice(source, tail, m.endPosition);
    SpliceSplit(source, tail, 0, m.endPosition);
    ReplaceOnPrefix(source, after, m);
  }

  /** Why the source reverses the list first: applying well-formed modifications one after
      another, last range first, gives the original text with every range replaced, because
      each splice only moves text at or after its own range. */
  lemma {:induction false} ReverseOrderPatches(source: string, ms: seq<Modification>)
    requires WellFormed(ms, |source|)
    ensures ApplyInSequence(source, Reversed(ms)) == Patched(source, ms)
  {
    if ms == [] {
      assert Reversed(ms) == [];
    } else {
      ReplaceBeforeSplice(source, ms);
      ReverseOrderPatches(source, ms[1..]);
      var r := Reversed(ms);
      assert r == Reversed(ms[1..]) + [ms[0]];
      assert r[..|r| - 1] == Reversed(ms[1..]);
    }
  }

  /** Replacing a range of a text that agrees with `x` up to the range's end. */
  lemma ReplaceOnPrefix(x: string, after: string, m: Modification)
    requires m.startPosition <= m.endPosition <= |x|
    ensures Replace(x[0..m.endPosition] + after, m) == x[0..m.startPosition] + m.content + after
  {
    var t := x[0..m.endPosition] + after;
    assert t[..m.startPosition] == x[0..m.startPosition];
    assert t[m.endPosition..] == after;
  }

  /** Length of the result: the original length plus what each modification adds. */
  lemma {:induction false} SpliceLength(source: string, ms: seq<Modification>, from: nat)
    requires WellFormed(ms, |source|)
    requires from <= NextStart(ms, |source|)
    decreases |ms|
    ensures |Splice(source, ms, from)| == |source| - from + Growth(ms)
  {
    if ms != [] {
      SuffixWellFormed(ms, |source|, 1);
      SpliceLength(source, ms[1..], ms[0].endPosition);
    }
  }

  /** Where the text between range `k - 1` and range `k` begins (`from` before the first). */
  function GapStart(ms: seq<Modification>, k: nat, from: nat): nat
    requires k <= |ms|
  {
    if k == 0 then from else ms[k - 1].endPosition
  }

  /** Where the text between range `k - 1` and range `k` ends (the text's end after the last). */
  function GapEnd(ms: seq<Modification>, k: nat, size: nat): nat
    requires k <= |ms|
  {
    if k == |ms| then size else ms[k].startPosition
  }

  lemma GrowthStep(ms: seq<Modification>, k: nat)
    requires 0 < k <= |ms|
    ensures Growth(ms[..k]) == |ms[0].content| - (ms[0].endPosition - ms[0].startPosition) + Growth(ms[1..][..k - 1])
  {
    assert ms[..k][1..] == ms[1..][..k - 1];
  }

  /** `s` holds `ch` at `offset`. */
  predicate HasAt(s: string, offset: int, ch: char)
  {
    0 <= offset < |s| && s[offset] == ch
  }

  /** Every character outside the edited ranges survives, in order: a character of the gap
      before range `k` moves by what the first `k` modifications add. */
  lemma {:induction false} SpliceKeepsUntouched(source: string, ms: seq<Modification>, from: nat, k: nat, j: nat)
    requires WellFormed(ms, |source|)
    requires from <= NextStart(ms, |source|)
    requires k <= |ms|
    requires GapStart(ms, k, from) <= j < GapEnd(ms, k, |source|)
    decreases |ms|
    ensures HasAt(Splice(source, ms, from), j - from + Growth(ms[..k]), source[j])
  {
    if k == 0 {
      assert Growth(ms[..0]) == 0 by { assert ms[..0] == []; }
      SpliceKeepsFront(source, ms, from, j);
    } else {
      SuffixWellFormed(ms, |source|, 1);
      var m := ms[0];
      var rest := ms[1..];
      assert GapStart(rest, k - 1, m.endPosition) == GapStart(ms, k, from);
      assert GapEnd(rest, k - 1, |source|) == GapEnd(ms, k, |source|);
      assert m.endPosition <= NextStart(rest, |source|) by {
        if rest != [] { assert rest[0] == ms[1]; }
      }
      SpliceKeepsUntouched(source, rest, m.endPosition, k - 1, j);
      SpliceKeepsAfterFirst(source, ms, from, k, j, source[j]);
    }
  }

  /** What lies after the first range's content moves by that range's growth. */
  lemma SpliceKeepsAfterFirst(source: string, ms: seq<Modification>, from: nat, k: nat, j: int, ch: char)
    requires 0 < k <= |ms|
    requires WellFormed(ms, |source|) && WellFormed(ms[1..], |source|)
    requires from <= NextStart(ms, |source|) && ms[0].endPosition <= NextStart(ms[1..], |source|)
    requires HasAt(Splice(source, ms[1..], ms[0].endPosition), j - ms[0].endPosition + Growth(ms[1..][..k - 1]), ch)
    ensures HasAt(Splice(source, ms, from), j - from + Growth(ms[..k]), ch)
  {
    var m := ms[0];
    GrowthStep(ms, k);
    var head := source[from..m.startPosition] + m.content;
    var tail := Splice(source, ms[1..], m.endPosition);
    assert Splice(source, ms, from) == head + tail;
    CharAfterPrefix(Splice(source, ms, from), head, tail,
                    j - from + Growth(ms[..k]), j - m.endPosition + Growth(ms[1..][..k - 1]), ch);
  }

  /** A character before the first range keeps its place relative to `from`. */
  lemma SpliceKeepsFront(source: string, ms: seq<Modification>, from: nat, j: nat)
    requires WellFormed(ms, |source|)
    requires from <= j < NextStart(ms, |source|)
    ensures HasAt(Splice(source, ms, from), j - from, source[j])
  {
    if ms == [] {
      assert Splice(source, ms, from)[j - from] == source[j];
    } else {
      SuffixWellFormed(ms, |source|, 1);
      var x := source[from..ms[0].startPosition];
      CharBeforeContent(Splice(source, ms, from), x, ms[0].content, Splice(source, ms[1..], ms[0].endPosition), j - from);
    }
  }

  lemma CharBeforeContent(whole: string, x: string, c: string, r: string, i: int)
    requires whole == x + c + r && 0 <= i < |x|
    ensures HasAt(whole, i, x[i])
  {
  }

  lemma CharAfterPrefix(whole: string, head: string, tail: string, offset: int, at: int, ch: char)
    requires whole == head + tail && offset == |head| + at
    requires HasAt(tail, at, ch)
    ensures HasAt(whole, offset, ch)
  {
  }

  /** `c` appears in `s` at `offset`. */
  predicate Occurs(c: string, s: string, offset: int)
  {
    0 <= offset && offset + |c| <= |s| && s[offset..offset + |c|] == c
  }

  /** Each range's content appears in the result, moved by what the modifications before
      it add. */
  lemma {:induction false} SpliceInsertsContent(source: string, ms: seq<Modification>, from: nat, k: nat)
    requires WellFormed(ms, |source|)
    requires from <= NextStart(ms, |source|)
    requires k < |ms|
    decreases |ms|, 1
    ensures Occurs(ms[k].content, Splice(source, ms, from), ms[k].startPosition - from + Growth(ms[..k]))
  {
    SuffixWellFormed(ms, |source|, 1);
    var m := ms[0];
    var rest := ms[1..];
    assert m.endPosition <= NextStart(rest, |source|) by {
      if rest != [] { assert rest[0] == ms[1]; }
    }
    if k == 0 {
      assert Growth(ms[..0]) == 0 by { assert ms[..0] == []; }
      ContentAfterText(Splice(source, ms, from), source[from..m.startPosition], m.content,
                       Splice(source, rest, m.endPosition));
    } else {
      SpliceInsertsAfterFirst(source, ms, from, k);
    }
  }

  /** Content placed after the first range's content moves by that range's growth. */
  lemma SpliceInsertsAfterFirst(source: string, ms: seq<Modification>, from: nat, k: nat)
    requires 0 < k < |ms|
    requires WellFormed(ms, |source|) && WellFormed(ms[1..], |source|)
    requires from <= NextStart(ms, |source|) && ms[0].endPosition <= NextStart(ms[1..], |source|)
    decreases |ms|, 0
    ensures Occurs(ms[k].content, Splice(source, ms, from), ms[k].startPosition - from + Growth(ms[..k]))
  {
    SpliceInsertsContent(source, ms[1..], ms[0].endPosition, k - 1);
    assert ms[1..][k - 1] == ms[k];
    var m := ms[0];
    GrowthStep(ms, k);
    SpliceFirst(source, ms, from);
    ContentAfterPrefix(Splice(source, ms, from), source[from..m.startPosition] + m.content,
                       Splice(source, ms[1..], m.endPosition), ms[k].startPosition - from + Growth(ms[..k]),
                       ms[k].startPosition - m.endPosition + Growth(ms[1..][..k - 1]), ms[k].content);
  }

  lemma SpliceFirst(source: string, ms: seq<Modification>, from: nat)
    requires ms != [] && WellFormed(ms, |source|) && WellFormed(ms[1..], |source|)
    requires from <= NextStart(ms, |source|) && ms[0].endPosition <= NextStart(ms[1..], |source|)
    ensures Splice(source, ms, from)
            == (source[from..ms[0].startPosition] + ms[0].content) + Splice(source, ms[1..], ms[0].endPosition)
  {
  }

  lemma ContentAfterText(whole: string, x: string, c: string, r: string)
    requires whole == x + c + r
    ensures Occurs(c, whole, |x|)
  {
    assert whole[|x|..|x| + |c|] == c;
  }

  lemma ContentAfterPrefix(whole: string, head: string, tail: string, offset: int, at: int, c: string)
    requires whole == head + tail && offset == |head| + at
    requires Occurs(c, tail, at)
    ensures Occurs(c, whole, offset)
  {
    assert whole[offset..offset + |c|] == tail[at..at + |c|];
  }

  /** How many leading ranges end at or before offset `j`. */
  function RangesBefore(ms: seq<Modification>, j: nat): (c: nat)
    ensures c <= |ms|
    ensures forall k :: 0 <= k < c ==> ms[k].endPosition <= j
    ensures c < |ms| ==> j < ms[c].endPosition
  {
    if ms == [] || j < ms[0].endPosition then 0
    else 1 + RangesBefore(ms[1..], j)
  }

  /** The stretch `[lo, hi)` of the original text appears unchanged in the patched text,
      moved by what the ranges ending at or before `lo` add. */
  predicate KeptIntact(source: string, ms: seq<Modification>, lo: nat, hi: nat)
  {
    && WellFormed(ms, |source|)
    && lo <= hi <= |source|
    && Occurs(source[lo..hi], Patched(source, ms), lo + Growth(ms[..RangesBefore(ms, lo)]))
  }

  /** No range overlaps the stretch `[lo, hi)`: each ends at or before it or starts at or
      after it. */
  predicate OverlapsNone(ms: seq<Modification>, lo: nat, hi: nat)
  {
    forall k :: 0 <= k < |ms| ==> ms[k].endPosition <= lo || hi <= ms[k].startPosition
  }

  /** A stretch of the original text that no range overlaps comes through unchanged,
      moved by what the ranges before it add. */
  lemma UntouchedRangeSurvives(source: string, ms: seq<Modification>, lo: nat, hi: nat)
    requires WellFormed(ms, |source|)
    requires lo <= hi <= |source|
    requires OverlapsNone(ms, lo, hi)
    ensures KeptIntact(source, ms, lo, hi)
  {
    var c := RangesBefore(ms, lo);
    assert GapStart(ms, c, 0) <= lo;
    assert hi <= GapEnd(ms, c, |source|);
    GapSurvives(source, ms, c, lo, hi);
    GapOffsetInBounds(source, ms, c, lo);
    CharsFormBlock(Patched(source, ms), source, lo, hi, Growth(ms[..c]));
  }

  /** Every character of (part of) the gap before range `c` survives, shifted alike. */
  lemma GapSurvives(source: string, ms: seq<Modification>, c: nat, lo: nat, hi: nat)
    requires WellFormed(ms, |source|) && c <= |ms|
    requires GapStart(ms, c, 0) <= lo && hi <= GapEnd(ms, c, |source|)
    ensures forall j :: lo <= j < hi ==> HasAt(Patched(source, ms), j + Growth(ms[..c]), source[j])
  {
    forall j | lo <= j < hi ensures HasAt(Patched(source, ms), j + Growth(ms[..c]), source[j]) {
      SpliceKeepsUntouched(source, ms, 0, c, j);
    }
  }

  /** A position of the gap before range `c`, its end included, lands inside the result. */
  lemma GapOffsetInBounds(source: string, ms: seq<Modification>, c: nat, lo: nat)
    requires WellFormed(ms, |source|) && c <= |ms|
    requires GapStart(ms, c, 0) <= lo <= GapEnd(ms, c, |source|)
    ensures 0 <= lo + Growth(ms[..c]) <= |Patched(source, ms)|
  {
    if lo < GapEnd(ms, c, |source|) {
      SpliceKeepsUntouched(source, ms, 0, c, lo);
    } else if c < |ms| {
      SpliceInsertsContent(source, ms, 0, c);
    } else {
      assert ms[..c] == ms;
      SpliceLength(source, ms, 0);
    }
  }

  lemma CharsFormBlock(out: string, source: string, lo: nat, hi: nat, shift: int)
    requires lo <= hi <= |source|
    requires 0 <= lo + shift <= |out|
    requires forall j :: lo <= j < hi ==> HasAt(out, j + shift, source[j])
    ensures Occurs(source[lo..hi], out, lo + shift)
  {
    if lo < hi {
      assert HasAt(out, hi - 1 + shift, source[hi - 1]);
    }
    forall t | 0 <= t < hi - lo ensures out[lo + shift..hi + shift][t] == source[lo..hi][t] {
      assert HasAt(out, lo + t + shift, source[lo + t]);
    }
  }

  /** Applying the same modifications left to right, each on the text the previous one
      produced, is not the same: the first insertion shifts the text under the second's
      original offsets. */
  lemma LeftToRightDiffers()
    ensures var ms := [Modification(0, 1, "XX"), Modification(2, 3, "Y")];
            WellFormed(ms, 4) && ApplyInSequence("abcd", ms) == "XXYcd" && Patched("abcd", ms) == "XXbYd"
  {
    InOrderExample();
    PatchedExample();
  }

  lemma InOrderExample()
    ensures ApplyInSequence("abcd", [Modification(0, 1, "XX"), Modification(2, 3, "Y")]) == "XXYcd"
  {
    var ms := [Modification(0, 1, "XX"), Modification(2, 3, "Y")];
    assert ms[..1] == [ms[0]] && ms[..1][..0] == [];
    assert ApplyInSequence("abcd", ms[..1]) == "XXbcd";
  }

  lemma PatchedExample()
    ensures WellFormed([Modification(0, 1, "XX"), Modification(2, 3, "Y")], 4)
    ensures Patched("abcd", [Modification(0, 1, "XX"), Modification(2, 3, "Y")]) == "XXbYd"
  {
    var ms := [Modification(0, 1, "XX"), Modification(2, 3, "Y")];
    var text := "abcd";
    assert WellFormed(ms, |text|);
    assert ms[1..] == [ms[1]] && ms[1..][1..] == [];
    assert Splice(text, ms[1..], 1) == "b" + "Y" + "d";
  }

  /** `modifications.reverse()`: reverses the array in place. */
  method Reverse(a: array<Modification>)
    modifies a
    ensures a[..] == Reversed(old(a[..]))
  {
    ghost var original := a[..];
    var n := a.Length;
    var i := 0;
    while i < n / 2
      invariant 0 <= i <= n / 2
      invariant forall j :: 0 <= j < i || n - i <= j < n ==> a[j] == original[n - 1 - j]
      invariant forall j :: i <= j < n - i ==> a[j] == original[j]
    {
      a[i], a[n - 1 - i] := a[n - 1 - i], a[i];
      i := i + 1;
    }
  }

  /** One iteration of the loop extends the prefix applied so far by one. */
  lemma SequenceStep(source: string, ms: seq<Modification>, i: nat)
    requires i < |ms|
    ensures Replace(ApplyInSequence(source, ms[..i]), ms[i]) == ApplyInSequence(source, ms[..i + 1])
  {
    assert ms[..i + 1][..i] == ms[..i];
  }

  /** `applyReplacements`: reverses `modifications` in place (the caller's array is left
      reversed) and splices each one into the text, last range first. For ascending,
      disjoint ranges inside the text the result is the original text with every range
      replaced by its content. */
  method ApplyReplacements(source: string, modifications: array<Modification>) returns (result: string)
    modifies modifications
    ensures modifications[..] == Reversed(old(modifications[..]))
    ensures result == ApplyInSequence(source, modifications[..])
    ensures WellFormed(old(modifications[..]), |source|) ==> result == Patched(source, old(modifications[..]))
  {
    ghost var original := modifications[..];
    Reverse(modifications);
    result := source;
    assert modifications[..][..0] == [];
    for i := 0 to modifications.Length
      invariant modifications[..] == Reversed(original)
      invariant result == ApplyInSequence(source, modifications[..][..i])
    {
      var modification := modifications[i];
      SequenceStep(source, modifications[..], i);
      result := SliceTo(result, modification.startPosition) + modification.content
                + SliceFrom(result, modification.endPosition);
    }
    assert modifications[..][..modifications.Length] == modifications[..];
    if WellFormed(original, |source|) {
      ReverseOrderPatches(source, original);
    }
  }
}
