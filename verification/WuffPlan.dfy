/** How wuff_read cuts a request of any byte size into a head, whole samples and a tail. */
module WuffPlan {
  import opened Bytes
  import opened WuffSlices

  datatype Plan = Plan(samples: nat, head: nat, tail: nat)

  /** wuff_calculate_samples. The sample that `head` belongs to is not in the count unless it is all that fits:
      the increment made for it is overwritten by the division that follows. */
  function CalculateSamples(targetSize: nat, sampleSize: SampleSize, head: nat): (r: Plan)
    ensures targetSize > 0 ==> r.samples > 0
  {
    if head != 0 && targetSize <= head then
      Plan(1, targetSize, 0)
    else
      var target: int := targetSize - head;
      var size: int := sampleSize;
      assert target == target / size * size + target % size;
      Plan(target / size + (if target % size != 0 then 1 else 0), head, target % size)
  }

  /** Bytes left of a sample that was cut at `phase`. */
  function HeadOf(sampleSize: SampleSize, phase: nat): nat
    requires phase < sampleSize
  {
    if phase == 0 then 0 else sampleSize - phase
  }

  /** What wuff_read asks the buffer for. */
  function Ask(size: nat, sampleSize: SampleSize, phase: nat): (r: Plan)
    requires phase < sampleSize
    ensures size > 0 ==> r.samples > 0
  {
    CalculateSamples(size, sampleSize, HeadOf(sampleSize, phase))
  }

  /** What wuff_read makes of the request once it knows how many samples are buffered. */
  function Settle(asked: Plan, available: nat): Plan
    requires available > 0 && asked.samples > 0
  {
    var granted := if available < asked.samples then available else asked.samples;
    if granted == 1 && asked.head != 0 then
      Plan(0, asked.head, 0)
    else
      var tail := if granted < asked.samples then 0 else asked.tail;
      Plan(granted - (if asked.head != 0 then 1 else 0) - (if tail != 0 then 1 else 0), asked.head, tail)
  }

  /** A request that starts inside a sample and reaches beyond it. */
  lemma AskPastHead(size: nat, sampleSize: SampleSize, phase: nat)
    requires phase < sampleSize && size > HeadOf(sampleSize, phase)
    ensures var a := Ask(size, sampleSize, phase);
      && a.head == HeadOf(sampleSize, phase) && a.tail < sampleSize
      && size == a.head + a.tail + Span(a.samples - (if a.tail != 0 then 1 else 0), sampleSize)
  {
    var target: int := size - HeadOf(sampleSize, phase);
    SpanIsProduct(target / sampleSize, sampleSize);
  }

  /** The settled plan is a proper slice of the buffered samples, makes progress and fits the caller's buffer. */
  lemma SettleFits(outSize: SampleSize, size: nat, phase: nat, available: nat)
    requires phase < outSize && size > 0 && available > 0
    ensures var p := Settle(Ask(size, outSize, phase), available);
      && SliceArguments(outSize, p.samples, phase, p.head, p.tail)
      && Touched(p.samples, p.head, p.tail) <= available
      && 0 < SliceLength(outSize, p.samples, p.head, p.tail) <= size
  {
    var a := Ask(size, outSize, phase);
    var p := Settle(a, available);
    if size > HeadOf(outSize, phase) {
      AskPastHead(size, outSize, phase);
      var whole := a.samples - (if a.tail != 0 then 1 else 0);
      if p.samples < whole {
        SpanMonotone(p.samples, whole, outSize);
      }
      assert p.samples > 0 ==> Span(p.samples, outSize) >= outSize;
    }
  }

  /** Exactly how much a read delivers when enough is buffered: all of it from a sample boundary or inside one sample,
      otherwise the rest of the sample if no more than one further sample was asked for, else one sample too few. */
  lemma SettledLength(outSize: SampleSize, size: nat, phase: nat, available: nat)
    requires phase < outSize && size > 0
    requires available >= Ask(size, outSize, phase).samples
    ensures var a := Ask(size, outSize, phase);
      var p := Settle(a, available);
      SliceLength(outSize, p.samples, p.head, p.tail) ==
        if phase == 0 || size <= outSize - phase then size
        else if a.samples == 1 then outSize - phase
        else size - outSize
  {
    if size > HeadOf(outSize, phase) {
      AskPastHead(size, outSize, phase);
    }
  }

  /** With fewer samples buffered than asked for, every one of them is used up to its last byte. */
  lemma ScarceLength(outSize: SampleSize, size: nat, phase: nat, available: nat)
    requires phase < outSize && size > 0
    requires 0 < available < Ask(size, outSize, phase).samples
    ensures var p := Settle(Ask(size, outSize, phase), available);
      phase + SliceLength(outSize, p.samples, p.head, p.tail) == Span(available, outSize)
  {
    var p := Settle(Ask(size, outSize, phase), available);
    if phase == 0 {
      assert p == Plan(available, 0, 0);
    } else {
      assert p == Plan(available - 1, outSize - phase, 0);
      assert Span(available, outSize) == Span(available - 1, outSize) + outSize;
    }
  }

  /** How many bytes a read delivers when `granted` samples are buffered of those it asks for. */
  function Yield(outSize: SampleSize, size: nat, phase: nat, granted: nat): int
    requires phase < outSize && size > 0
  {
    var asked := Ask(size, outSize, phase).samples;
    if granted == 0 then 0
    else if granted < asked then Span(granted, outSize) - phase
    else if phase == 0 || size <= outSize - phase then size
    else if asked == 1 then outSize - phase
    else size - outSize
  }

  lemma YieldIsLength(outSize: SampleSize, size: nat, phase: nat, granted: nat)
    requires phase < outSize && size > 0 && 0 < granted <= Ask(size, outSize, phase).samples
    ensures var p := Settle(Ask(size, outSize, phase), granted);
      SliceLength(outSize, p.samples, p.head, p.tail) == Yield(outSize, size, phase, granted)
  {
    if granted < Ask(size, outSize, phase).samples {
      ScarceLength(outSize, size, phase, granted);
    } else {
      SettledLength(outSize, size, phase, granted);
    }
  }

  /** Samples a slice finishes, as wuff_read releases them. */
  function Finished(sampleSize: SampleSize, phase: nat, p: Plan): nat {
    if phase + p.head == sampleSize then p.samples + 1 else p.samples
  }

  /** Bytes a slice has delivered of the sample it stopped in. */
  function NextPhase(sampleSize: SampleSize, phase: nat, p: Plan): nat {
    if p.head != 0 && phase + p.head < sampleSize then phase + p.head else p.tail
  }

  /** Releasing the finished samples keeps the source and output cursors in step, and keeps a split sample buffered. */
  lemma CursorsInStep(outSize: SampleSize, phase: nat, p: Plan)
    requires SliceArguments(outSize, p.samples, phase, p.head, p.tail)
    ensures var f := Finished(outSize, phase, p);
      && phase + SliceLength(outSize, p.samples, p.head, p.tail) == Span(f, outSize) + NextPhase(outSize, phase, p)
      && NextPhase(outSize, phase, p) < outSize
      && f + (if NextPhase(outSize, phase, p) > 0 then 1 else 0) <= Touched(p.samples, p.head, p.tail)
  {
  }
}
