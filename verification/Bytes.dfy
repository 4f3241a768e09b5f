/** Bytes, options and the two standard-library searches that the views rely on. */
module Bytes {

  newtype byte = x: int | 0 <= x < 256

  const LINE_FEED: byte := 10
  const CARRIAGE_RETURN: byte := 13

  datatype Option<+T> = None | Some(value: T)

  function Min(a: nat, b: nat): nat { if a <= b then a else b }

  function Max(a: nat, b: nat): nat { if a <= b then b else a }

  /** The bytes of a list of segments, in order. */
  function Flat(segments: seq<seq<byte>>): seq<byte> {
    if segments == [] then [] else segments[0] + Flat(segments[1..])
  }

  lemma {:induction false} Associative<T>(a: seq<T>, b: seq<T>, c: seq<T>)
    ensures (a + b) + c == a + (b + c)
  {
  }

  lemma {:induction false} FlatConcat(a: seq<seq<byte>>, b: seq<seq<byte>>)
    ensures Flat(a + b) == Flat(a) + Flat(b)
  {
    if a == [] {
      assert a + b == b;
    } else {
      assert (a + b)[0] == a[0] && (a + b)[1..] == a[1..] + b;
      FlatConcat(a[1..], b);
      Associative(a[0], Flat(a[1..]), Flat(b));
      assert Flat(a + b) == a[0] + (Flat(a[1..]) + Flat(b));
    }
  }

  lemma {:induction false} FlatOne(segment: seq<byte>)
    ensures Flat([segment]) == segment
  {
  }

  /** Where segment `i` sits in the flattened bytes. */
  lemma {:induction false} FlatAt(segments: seq<seq<byte>>, i: nat)
    requires i < |segments|
    ensures Flat(segments[..i + 1]) == Flat(segments[..i]) + segments[i]
    ensures Flat(segments) == Flat(segments[..i + 1]) + Flat(segments[i + 1..])
  {
    assert segments[..i + 1] == segments[..i] + [segments[i]];
    FlatConcat(segments[..i], [segments[i]]);
    FlatOne(segments[i]);
    assert segments == segments[..i + 1] + segments[i + 1..];
    FlatConcat(segments[..i + 1], segments[i + 1..]);
  }

  /** Segment `i` is the range of the flattened bytes that follows the first `i` segments. */
  lemma {:induction false} SegmentAt(segments: seq<seq<byte>>, i: nat)
    requires i < |segments|
    ensures var begin := |Flat(segments[..i])|;
            && |Flat(segments[..i + 1])| == begin + |segments[i]| <= |Flat(segments)|
            && Flat(segments)[begin..begin + |segments[i]|] == segments[i]
  {
    FlatAt(segments, i);
    MiddleOf(Flat(segments[..i]), segments[i], Flat(segments[i + 1..]));
  }

  lemma {:induction false} MiddleOf(a: seq<byte>, b: seq<byte>, c: seq<byte>)
    ensures (a + b + c)[|a|..|a| + |b|] == b
  {
  }

  /** `pattern` occurs in `text` starting at index `at`. */
  predicate OccursAt(text: seq<byte>, pattern: seq<byte>, at: nat) {
    at + |pattern| <= |text| && text[at..at + |pattern|] == pattern
  }

  /** `std::ranges::search`: the first occurrence at or after `from`. */
  function SearchFrom(text: seq<byte>, pattern: seq<byte>, from: nat): (r: Option<nat>)
    requires from <= |text|
    ensures r.Some? ==> from <= r.value && OccursAt(text, pattern, r.value)
    ensures r.Some? ==> forall j: nat :: from <= j < r.value ==> !OccursAt(text, pattern, j)
    ensures r.None? ==> forall j: nat :: from <= j ==> !OccursAt(text, pattern, j)
    decreases |text| - from
  {
    if OccursAt(text, pattern, from) then Some(from)
    else if from == |text| then None
    else SearchFrom(text, pattern, from + 1)
  }

  function Search(text: seq<byte>, pattern: seq<byte>): Option<nat> {
    SearchFrom(text, pattern, 0)
  }

  /** `std::ranges::find_first_of` (and `memchr` when `values` is one byte): the least index of a member of `values`. */
  function IndexOfAny(text: seq<byte>, values: seq<byte>): (r: Option<nat>)
    ensures r.Some? ==> r.value < |text| && text[r.value] in values
    ensures r.Some? ==> forall j: nat :: j < r.value ==> text[j] !in values
    ensures r.None? ==> forall j: nat :: j < |text| ==> text[j] !in values
  {
    if text == [] then None
    else if text[0] in values then Some(0)
    else
      match IndexOfAny(text[1..], values)
      case None => None
      case Some(i) => Some(i + 1)
  }

  lemma {:induction false} IndexOfAnyIs(text: seq<byte>, values: seq<byte>, i: nat)
    requires i < |text| && text[i] in values && forall j: nat :: j < i ==> text[j] !in values
    ensures IndexOfAny(text, values) == Some(i)
  {
  }

  /** A search of a concatenation looks at the first part and then at the second. */
  lemma {:induction false} IndexOfAnyConcat(a: seq<byte>, b: seq<byte>, values: seq<byte>)
    ensures IndexOfAny(a + b, values)
         == if IndexOfAny(a, values).Some? then IndexOfAny(a, values)
            else if IndexOfAny(b, values).Some? then Some(|a| + IndexOfAny(b, values).value)
            else None
  {
    hide IndexOfAny;
    var inA, inB := IndexOfAny(a, values), IndexOfAny(b, values);
    if inA.Some? {
      IndexOfAnyIs(a + b, values, inA.value);
    } else if inB.Some? {
      IndexOfAnyIs(a + b, values, |a| + inB.value);
    }
  }

  lemma {:induction false} SliceOfSlice(s: seq<byte>, lo: nat, hi: nat, innerLo: nat, innerHi: nat)
    requires lo <= hi <= |s| && innerLo <= innerHi <= hi - lo
    ensures s[lo..hi][innerLo..innerHi] == s[lo + innerLo..lo + innerHi]
  {
    var left, right := s[lo..hi][innerLo..innerHi], s[lo + innerLo..lo + innerHi];
    assert forall k :: 0 <= k < |left| ==> left[k] == s[lo + innerLo + k] == right[k];
  }

  lemma {:induction false} PrefixThen(s: seq<byte>, n: nat, m: nat)
    requires n + m <= |s|
    ensures s[..n] + s[n..][..m] == s[..n + m]
  {
  }

  /** `memcpy`: `target` with `source` written over it at `at`. */
  function Patch(target: seq<byte>, at: nat, source: seq<byte>): seq<byte>
    requires at + |source| <= |target|
  {
    target[..at] + source + target[at + |source|..]
  }

  lemma {:induction false} PatchLength(target: seq<byte>, at: nat, source: seq<byte>)
    requires at + |source| <= |target|
    ensures |Patch(target, at, source)| == |target|
  {
  }

  lemma {:induction false} PatchFurther(target: seq<byte>, source: seq<byte>, done: nat, next: seq<byte>)
    requires done + |next| <= |target| && done + |next| <= |source| && next == source[done..done + |next|]
    ensures Patch(Patch(target, 0, source[..done]), done, next) == Patch(target, 0, source[..done + |next|])
  {
  }

  method CopyInto(target: array<byte>, at: nat, source: seq<byte>)
    requires at + |source| <= target.Length
    modifies target
    ensures target[..] == Patch(old(target[..]), at, source)
  {
    for k := 0 to |source|
      invariant target[..at + k] == old(target[..at]) + source[..k]
      invariant target[at + k..] == old(target[at + k..])
    {
      target[at + k] := source[k];
    }
  }
}
