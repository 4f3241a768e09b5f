/** Slicing and searching over a list of byte spans (src/pipeline/segmented_byte_view.h). */
module SegmentedView {
  import opened Bytes

  datatype Result<+T> = Ok(value: T) | OutOfRange

  /** An absolute position, or the default-constructed "not found" one. */
  datatype Position = Missing | At(offset: nat)

  /** A search result relative to the view, made absolute. */
  function Absolute(begin: nat, index: Option<nat>): Position {
    if index.Some? then At(begin + index.value) else Missing
  }

  datatype Range = Range(begin: nat, end: nat)

  /** The arguments of the four `slice` and `slice_in_place` overloads. */
  datatype SliceRequest =
    | UpTo(end: nat)
    | Between(begin: nat, end: nat)
    | OffsetTo(beginOffset: nat, end: nat)
    | OffsetSize(beginOffset: nat, size: nat)

  /** The overlap with `lo..hi` of a segment that starts at `begin` extends the slice collected so far. */
  lemma {:induction false} SliceGrows(
    bytes: seq<byte>, begin: nat, segment: seq<byte>, lo: nat, hi: nat, result: seq<seq<byte>>)
    requires begin + |segment| <= |bytes| && bytes[begin..begin + |segment|] == segment
    requires lo < hi <= |bytes| && lo < begin + |segment| && begin < hi
    requires Flat(result) == bytes[lo..Max(begin, lo)]
    ensures Flat(result + [segment[Max(begin, lo) - begin..Min(begin + |segment|, hi) - begin]])
         == bytes[lo..Min(begin + |segment|, hi)]
  {
    var end := begin + |segment|;
    var from, to := Max(begin, lo), Min(end, hi);
    SliceOfSlice(bytes, begin, end, from - begin, to - begin);
    var piece := segment[from - begin..to - begin];
    assert piece == bytes[from..to];
    FlatConcat(result, [piece]);
    FlatOne(piece);
    assert bytes[lo..to] == bytes[lo..from] + bytes[from..to];
    assert Flat(result + [piece]) == bytes[lo..to];
  }

  /** After `i` segments, which end at `begin`, the slice `lo..hi` is collected as far as they reach. */
  ghost predicate SlicedTo(segments: seq<seq<byte>>, i: nat, begin: nat, lo: nat, hi: nat, result: seq<seq<byte>>) {
    && i <= |segments| && begin == |Flat(segments[..i])| <= |Flat(segments)|
    && lo < hi <= |Flat(segments)|
    && Flat(result) == Flat(segments)[lo..Max(lo, Min(begin, hi))]
  }

  lemma {:induction false} SliceStarts(segments: seq<seq<byte>>, lo: nat, hi: nat)
    requires lo < hi <= |Flat(segments)|
    ensures SlicedTo(segments, 0, 0, lo, hi, [])
  {
  }

  lemma {:induction false} SliceAdvances(segments: seq<seq<byte>>, i: nat, begin: nat, lo: nat, hi: nat, result: seq<seq<byte>>)
    requires SlicedTo(segments, i, begin, lo, hi, result) && i < |segments|
    ensures var end := begin + |segments[i]|;
            && (end <= lo ==> SlicedTo(segments, i + 1, end, lo, hi, result))
            && (lo < end && begin < hi ==>
                  SlicedTo(segments, i + 1, end, lo, hi,
                           result + [segments[i][Max(begin, lo) - begin..Min(end, hi) - begin]]))
  {
    SegmentAt(segments, i);
    var end := begin + |segments[i]|;
    if lo < end && begin < hi {
      hide Flat;
      SliceGrows(Flat(segments), begin, segments[i], lo, hi, result);
      assert Max(lo, Min(end, hi)) == Min(end, hi);
    }
  }

  lemma {:induction false} SliceEnds(segments: seq<seq<byte>>, i: nat, begin: nat, lo: nat, hi: nat, result: seq<seq<byte>>)
    requires SlicedTo(segments, i, begin, lo, hi, result) && (i == |segments| || begin >= hi)
    ensures Flat(result) == Flat(segments)[lo..hi]
  {
    assert segments[..|segments|] == segments;
  }

  /** The loop of `make_slice_segments` over the non-empty range `lo..hi`. */
  method CollectSlice(segments: seq<seq<byte>>, beginOffset: nat, lo: nat, hi: nat) returns (result: seq<seq<byte>>)
    requires beginOffset <= lo < hi <= beginOffset + |Flat(segments)|
    ensures Flat(result) == Flat(segments)[lo - beginOffset..hi - beginOffset]
  {
    hide SlicedTo, Flat;
    ghost var from, to := lo - beginOffset, hi - beginOffset;
    SliceStarts(segments, from, to);
    result := [];
    var begin: nat := beginOffset;
    var i := 0;
    while i < |segments|
      invariant i <= |segments| && beginOffset <= begin
      invariant SlicedTo(segments, i, begin - beginOffset, from, to, result)
    {
      var segment := segments[i];
      var end := begin + |segment|;
      SliceAdvances(segments, i, begin - beginOffset, from, to, result);
      if end <= lo {
        begin, i := end, i + 1;
        continue;
      }
      if begin >= hi {
        break;
      }
      result := result + [segment[Max(begin, lo) - begin..Min(end, hi) - begin]];
      begin, i := end, i + 1;
    }
    SliceEnds(segments, i, begin - beginOffset, from, to, result);
  }

  lemma {:induction false} OneSegment(segments: seq<seq<byte>>)
    requires |segments| == 1
    ensures Flat(segments) == segments[0]
  {
  }

  /** After `i` segments the first `copied` bytes of the view stand in front of what the destination held. */
  ghost predicate FilledTo(
    segments: seq<seq<byte>>, i: nat, copied: nat, target: nat, before: seq<byte>, now: seq<byte>)
  {
    && i <= |segments| && target <= |Flat(segments)| && target <= |before|
    && copied == Min(target, |Flat(segments[..i])|)
    && now == Patch(before, 0, Flat(segments)[..copied])
  }

  lemma {:induction false} FillStarts(segments: seq<seq<byte>>, target: nat, before: seq<byte>)
    requires target <= |Flat(segments)| && target <= |before|
    ensures FilledTo(segments, 0, 0, target, before, before)
  {
  }

  lemma {:induction false} FillAdvances(
    segments: seq<seq<byte>>, i: nat, copied: nat, target: nat, before: seq<byte>, now: seq<byte>, chunk: nat)
    requires FilledTo(segments, i, copied, target, before, now) && i < |segments| && copied < target
    requires chunk == Min(|segments[i]|, target - copied)
    ensures copied + chunk <= |now| == |before|
    ensures FilledTo(segments, i + 1, copied + chunk, target, before, Patch(now, copied, segments[i][..chunk]))
  {
    var bytes := Flat(segments);
    SegmentAt(segments, i);
    hide Flat, Patch;
    SliceOfSlice(bytes, copied, copied + |segments[i]|, 0, chunk);
    PatchLength(before, 0, bytes[..copied]);
    PatchFurther(before, bytes, copied, segments[i][..chunk]);
  }

  lemma {:induction false} FillEnds(
    segments: seq<seq<byte>>, i: nat, copied: nat, target: nat, before: seq<byte>, now: seq<byte>)
    requires FilledTo(segments, i, copied, target, before, now) && (i == |segments| || copied == target)
    ensures copied == target && now == Patch(before, 0, Flat(segments)[..target])
  {
    assert segments[..|segments|] == segments;
  }

  /** The loop of `copy_to`. */
  method FillFrom(segments: seq<seq<byte>>, target: nat, destination: array<byte>) returns (copied: nat)
    requires target <= |Flat(segments)| && target <= destination.Length
    modifies destination
    ensures copied == target
    ensures destination[..] == Patch(old(destination[..]), 0, Flat(segments)[..copied])
  {
    hide FilledTo, Flat, Patch;
    ghost var before := destination[..];
    FillStarts(segments, target, before);
    copied := 0;
    var i := 0;
    while i < |segments| && copied != target
      invariant i <= |segments| && copied <= target
      invariant FilledTo(segments, i, copied, target, before, destination[..])
    {
      var chunk := Min(|segments[i]|, target - copied);
      FillAdvances(segments, i, copied, target, before, destination[..], chunk);
      CopyInto(destination, copied, segments[i][..chunk]);
      copied, i := copied + chunk, i + 1;
    }
    FillEnds(segments, i, copied, target, before, destination[..]);
  }

  class SegmentedByteView {
    var segments: seq<seq<byte>>
    var beginOffset: nat
    var size: nat

    ghost predicate Valid()
      reads this
    {
      size == |Flat(segments)|
    }

    ghost function Content(): seq<byte>
      reads this
    {
      Flat(segments)
    }

    function EndOffset(): nat
      reads this
    {
      beginOffset + size
    }

    /** The view over the non-empty readable spans that a read returns. */
    constructor (readable: seq<seq<byte>>, total: nat, begin: nat)
      requires total == |Flat(readable)|
      ensures Valid() && segments == readable && beginOffset == begin
    {
      segments, beginOffset, size := readable, begin, total;
    }

    /** `resolve_slice_range`: the absolute range that a request names. */
    function Resolve(request: SliceRequest): Result<Range>
      reads this
    {
      match request
      case UpTo(end) => Ok(Range(beginOffset, end))
      case Between(begin, end) => Ok(Range(begin, end))
      case OffsetTo(offset, end) =>
        if offset > size then OutOfRange else Ok(Range(beginOffset + offset, end))
      case OffsetSize(offset, count) =>
        if offset > size || count > size - offset then OutOfRange
        else Ok(Range(beginOffset + offset, beginOffset + offset + count))
    }

    /** The range that a request denotes, read off its documentation rather than its code. */
    ghost function Denoted(request: SliceRequest): Range
      reads this
    {
      match request
      case UpTo(end) => Range(beginOffset, end)
      case Between(begin, end) => Range(begin, end)
      case OffsetTo(offset, end) => Range(beginOffset + offset, end)
      case OffsetSize(offset, count) => Range(beginOffset + offset, beginOffset + offset + count)
    }

    ghost predicate InRange(range: Range)
      reads this
    {
      beginOffset <= range.begin <= range.end <= EndOffset()
    }

    /** This view shows exactly the absolute range `range` of `parent`. */
    ghost predicate Shows(parent: SegmentedByteView, range: Range)
      reads this, parent
      requires parent.Valid()
    {
      && Valid() && parent.InRange(range) && beginOffset == range.begin
      && Content() == parent.Content()[range.begin - parent.beginOffset..range.end - parent.beginOffset]
    }

    method MakeSliceSegments(lo: nat, hi: nat) returns (r: Result<seq<seq<byte>>>)
      requires Valid()
      ensures r.Ok? <==> InRange(Range(lo, hi))
      ensures r.Ok? ==> Flat(r.value) == Content()[lo - beginOffset..hi - beginOffset]
    {
      if lo > hi || !(beginOffset <= lo <= EndOffset()) || !(beginOffset <= hi <= EndOffset()) {
        return OutOfRange;
      }
      if lo == hi {
        return Ok([]);
      }
      var result := CollectSlice(segments, beginOffset, lo, hi);
      return Ok(result);
    }

    /** All four overloads of `slice`: accepted exactly when the denoted range lies in the view. */
    method Slice(request: SliceRequest) returns (r: Result<SegmentedByteView>)
      requires Valid()
      ensures r.Ok? <==> InRange(Denoted(request))
      ensures r.Ok? ==> fresh(r.value) && r.value.Shows(this, Denoted(request))
    {
      var resolved := Resolve(request);
      if resolved.OutOfRange? {
        return OutOfRange;
      }
      var spans := MakeSliceSegments(resolved.value.begin, resolved.value.end);
      if spans.OutOfRange? {
        return OutOfRange;
      }
      var view := new SegmentedByteView(spans.value, resolved.value.end - resolved.value.begin, resolved.value.begin);
      return Ok(view);
    }

    /** `slice_in_place`: the same slice, or no change at all when the request is rejected. */
    method SliceInPlace(request: SliceRequest) returns (accepted: bool)
      requires Valid()
      modifies this
      ensures Valid()
      ensures accepted <==> old(InRange(Denoted(request)))
      ensures !accepted ==> unchanged(this)
      ensures accepted ==> Range(beginOffset, EndOffset()) == old(Denoted(request))
      ensures accepted ==> Content() == old(Content()[Denoted(request).begin - beginOffset..Denoted(request).end - beginOffset])
    {
      var resolved := Resolve(request);
      if resolved.OutOfRange? {
        return false;
      }
      var spans := MakeSliceSegments(resolved.value.begin, resolved.value.end);
      if spans.OutOfRange? {
        return false;
      }
      segments := spans.value;
      beginOffset := resolved.value.begin;
      size := resolved.value.end - resolved.value.begin;
      return true;
    }

    /** `operator[](size_t)`. */
    method At(index: nat) returns (r: Result<byte>)
      requires Valid()
      ensures r == if index < |Content()| then Ok(Content()[index]) else OutOfRange
    {
      if index >= size {
        return OutOfRange;
      }
      assert segments[..|segments|] == segments;
      var begin := 0;
      for i := 0 to |segments|
        invariant begin == |Flat(segments[..i])| <= index
      {
        FlatAt(segments, i);
        var end := begin + |segments[i]|;
        if index < end {
          return Ok(segments[i][index - begin]);
        }
        begin := end;
      }
      assert false;
      return OutOfRange;
    }

    /** `operator[](position)`. */
    method AtPosition(offset: nat) returns (r: Result<byte>)
      requires Valid()
      ensures r == if beginOffset <= offset < EndOffset() then Ok(Content()[offset - beginOffset]) else OutOfRange
    {
      if !(beginOffset <= offset < EndOffset()) {
        return OutOfRange;
      }
      r := At(offset - beginOffset);
    }

    /** `operator[](from_end)`: walks the segments backwards. */
    method AtFromEnd(offset: nat) returns (r: Result<byte>)
      requires Valid()
      ensures r == if 0 < offset <= |Content()| then Ok(Content()[|Content()| - offset]) else OutOfRange
    {
      if !(0 < offset <= size) {
        return OutOfRange;
      }
      var remaining: nat := offset - 1;
      var i := |segments|;
      assert segments[..i] == segments;
      while i > 0
        invariant i <= |segments|
        invariant Flat(segments[..i]) <= Content()
        invariant |Flat(segments[..i])| > remaining
        invariant |Flat(segments[..i])| - 1 - remaining == |Content()| - offset
      {
        FlatAt(segments, i - 1);
        i := i - 1;
        if remaining < |segments[i]| {
          return Ok(segments[i][|segments[i]| - 1 - remaining]);
        }
        remaining := remaining - |segments[i]|;
      }
      assert false;
      return OutOfRange;
    }

    /** `position_of`. */
    method PositionOf(value: byte) returns (r: Position)
      requires Valid()
      ensures r == Absolute(beginOffset, IndexOfAny(Content(), [value]))
    {
      if size == 0 {
        return Missing;
      }
      r := FirstOfAny([value]);
    }

    /** `position_of_any`. */
    method PositionOfAny(values: seq<byte>) returns (r: Position)
      requires Valid()
      ensures r == Absolute(beginOffset, IndexOfAny(Content(), values))
    {
      if values == [] {
        return Missing;
      }
      if |values| == 1 {
        r := PositionOf(values[0]);
        assert values == [values[0]];
        return;
      }
      r := FirstOfAny(values);
    }

    /** The loop that both searches run over the segments. */
    method FirstOfAny(values: seq<byte>) returns (r: Position)
      requires Valid()
      ensures r == Absolute(beginOffset, IndexOfAny(Content(), values))
    {
      var offset := beginOffset;
      for i := 0 to |segments|
        invariant offset == beginOffset + |Flat(segments[..i])|
        invariant IndexOfAny(Flat(segments[..i]), values).None?
      {
        FlatAt(segments, i);
        IndexOfAnyConcat(Flat(segments[..i]), segments[i], values);
        IndexOfAnyConcat(Flat(segments[..i + 1]), Flat(segments[i + 1..]), values);
        var found := IndexOfAny(segments[i], values);
        if found.Some? {
          return Position.At(offset + found.value);
        }
        offset := offset + |segments[i]|;
      }
      assert segments[..|segments|] == segments;
      return Missing;
    }

    /** `position_of_sequence`: a per-segment search plus a window around each segment boundary
        finds the first occurrence in the flattened bytes. */
    method PositionOfSequence(pattern: seq<byte>) returns (r: Position)
      requires Valid()
      ensures r == if pattern == [] then Missing else Absolute(beginOffset, Search(Content(), pattern))
    {
      if pattern == [] || |pattern| > size {
        return Missing;
      }
      if |pattern| == 1 {
        SearchOneByte(Content(), pattern);
        assert pattern == [pattern[0]];
        r := PositionOf(pattern[0]);
        return;
      }
      var joined := Flat(segments);
      var offset := 0;
      for i := 0 to |segments|
        invariant offset == |Flat(segments[..i])|
        invariant forall j: nat :: j < offset ==> !OccursAt(joined, pattern, j)
      {
        FlatAt(segments, i);
        var found := SearchStartingIn(joined, offset, segments[i], pattern, |segments| == 1);
        if found.Some? {
          SearchIsLeast(joined, pattern, found.value);
          return Position.At(beginOffset + found.value);
        }
        offset := offset + |segments[i]|;
      }
      assert segments[..|segments|] == segments;
      return Missing;
    }

    /** `copy_to`: fills the destination from the front, as far as both sides reach. */
    method CopyTo(destination: array<byte>) returns (copied: nat)
      requires Valid()
      modifies destination
      ensures copied == Min(destination.Length, |Content()|)
      ensures destination[..] == Patch(old(destination[..]), 0, Content()[..copied])
    {
      var target := Min(destination.Length, size);
      if target == 0 {
        return 0;
      }
      if |segments| == 1 {
        OneSegment(segments);
        CopyInto(destination, 0, segments[0][..target]);
        return target;
      }
      copied := FillFrom(segments, target, destination);
    }

    /** `to_string`. */
    method ToString() returns (text: seq<byte>)
      requires Valid()
      ensures text == Content()
    {
      if size == 0 {
        return [];
      }
      if |segments| == 1 {
        OneSegment(segments);
        return segments[0];
      }
      text := [];
      for i := 0 to |segments|
        invariant text == Flat(segments[..i])
      {
        FlatAt(segments, i);
        text := text + segments[i];
      }
      assert segments[..|segments|] == segments;
    }
  }

  /** Slices compose: a slice of a slice is the slice of the parent over the inner absolute range. */
  lemma {:induction false} NestedSlice(
    parent: SegmentedByteView, middle: SegmentedByteView, inner: SegmentedByteView, outer: Range, range: Range)
    requires parent.Valid() && middle.Shows(parent, outer) && inner.Shows(middle, range)
    ensures outer.begin <= range.begin <= range.end <= outer.end
    ensures inner.Shows(parent, range)
  {
  }

  /** One iteration of `position_of_sequence`: the first occurrence that starts in `segment`. */
  method SearchStartingIn(joined: seq<byte>, offset: nat, segment: seq<byte>, pattern: seq<byte>, only: bool)
    returns (r: Option<nat>)
    requires |pattern| >= 2
    requires offset + |segment| <= |joined| && joined[offset..offset + |segment|] == segment
    requires only ==> joined == segment
    ensures r.Some? ==> offset <= r.value && OccursAt(joined, pattern, r.value)
    ensures r.Some? ==> forall j: nat :: offset <= j < r.value ==> !OccursAt(joined, pattern, j)
    ensures r.None? ==> forall j: nat :: offset <= j < offset + |segment| ==> !OccursAt(joined, pattern, j)
  {
    var found := Search(segment, pattern);
    InsideSegment(joined, offset, segment, pattern);
    if found.Some? {
      return Some(offset + found.value);
    }
    if only {
      return None;
    }
    var tail := Min(|segment|, |pattern| - 1);
    if tail == 0 {
      return None;
    }
    var boundary := offset + |segment| - tail;
    var window := joined[boundary..Min(boundary + tail + |pattern| - 1, |joined|)];
    var inWindow := Search(window, pattern);
    AcrossBoundary(joined, offset, segment, pattern, boundary, window);
    if inWindow.Some? {
      return Some(boundary + inWindow.value);
    }
    return None;
  }

  lemma {:induction false} SearchIsLeast(text: seq<byte>, pattern: seq<byte>, at: nat)
    requires OccursAt(text, pattern, at)
    requires forall j: nat :: j < at ==> !OccursAt(text, pattern, j)
    ensures Search(text, pattern) == Some(at)
  {
  }

  lemma {:induction false} SearchOneByte(text: seq<byte>, pattern: seq<byte>)
    requires |pattern| == 1
    ensures Search(text, pattern) == IndexOfAny(text, pattern)
  {
    OneByteOccurs(text, pattern);
    var found := IndexOfAny(text, pattern);
    if found.Some? {
      SearchIsLeast(text, pattern, found.value);
    }
  }

  lemma {:induction false} OneByteOccurs(text: seq<byte>, pattern: seq<byte>)
    requires |pattern| == 1
    ensures forall j: nat :: OccursAt(text, pattern, j) <==> j < |text| && text[j] in pattern
  {
  }

  /** Occurrences that end inside a segment are the occurrences in that segment. */
  lemma {:induction false} InsideSegment(joined: seq<byte>, offset: nat, segment: seq<byte>, pattern: seq<byte>)
    requires offset + |segment| <= |joined| && joined[offset..offset + |segment|] == segment
    ensures forall j: nat :: offset <= j && j + |pattern| <= offset + |segment| ==>
              (OccursAt(joined, pattern, j) <==> OccursAt(segment, pattern, j - offset))
  {
    forall j: nat | offset <= j && j + |pattern| <= offset + |segment|
      ensures OccursAt(joined, pattern, j) <==> OccursAt(segment, pattern, j - offset)
    {
      SliceOfSlice(joined, offset, offset + |segment|, j - offset, j - offset + |pattern|);
    }
  }

  /** Every occurrence that starts in a segment without ending in it lies in the boundary window. */
  lemma {:induction false} AcrossBoundary(joined: seq<byte>, offset: nat, segment: seq<byte>, pattern: seq<byte>, boundary: nat, window: seq<byte>)
    requires |pattern| >= 2
    requires offset + |segment| <= |joined| && joined[offset..offset + |segment|] == segment
    requires Search(segment, pattern).None?
    requires var tail := Min(|segment|, |pattern| - 1);
             && boundary == offset + |segment| - tail
             && window == joined[boundary..Min(boundary + tail + |pattern| - 1, |joined|)]
    ensures forall j: nat :: offset <= j < boundary ==> !OccursAt(joined, pattern, j)
    ensures forall k: nat :: OccursAt(window, pattern, k) ==> OccursAt(joined, pattern, boundary + k)
    ensures forall j: nat :: boundary <= j < offset + |segment| && OccursAt(joined, pattern, j) ==>
              OccursAt(window, pattern, j - boundary)
  {
    var end := Min(offset + |segment| + |pattern| - 1, |joined|);
    InsideSegment(joined, offset, segment, pattern);
    forall j: nat | offset <= j < boundary ensures !OccursAt(joined, pattern, j) {
      assert !OccursAt(segment, pattern, j - offset);
    }
    forall k: nat | OccursAt(window, pattern, k) ensures OccursAt(joined, pattern, boundary + k) {
      SliceOfSlice(joined, boundary, end, k, k + |pattern|);
    }
    forall j: nat | boundary <= j < offset + |segment| && OccursAt(joined, pattern, j)
      ensures OccursAt(window, pattern, j - boundary)
    {
      SliceOfSlice(joined, boundary, end, j - boundary, j - boundary + |pattern|);
    }
  }
}
