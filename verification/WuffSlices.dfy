/** The byte-exact slicing that every Wuff converter shares, whatever it does to one sample. */
module WuffSlices {
  import opened Bytes

  type SampleSize = n: int | 1 <= n <= 8 witness 1

  /** A converter's work on one sample: byte `k` of the sample made from the source bytes `s` is `f(s, k)`. */
  datatype Rule = Rule(inSize: SampleSize, outSize: SampleSize, f: (seq<byte>, int) -> byte) {
    function Sample(s: seq<byte>): (r: seq<byte>)
      ensures |r| == outSize
    {
      seq(outSize, k => f(s, k))
    }
  }

  /** What `n` samples or blocks of `size` units take. Written as a sum, since the proofs only ever add them. */
  function Span(n: nat, size: nat): (r: nat) {
    if n == 0 then 0 else Span(n - 1, size) + size
  }

  lemma {:induction false} SpanIsProduct(n: nat, size: nat)
    ensures Span(n, size) == n * size
  {
    if n > 0 {
      SpanIsProduct(n - 1, size);
      assert n * size == (n - 1) * size + size;
    }
  }

  lemma {:induction false} SpanAdd(m: nat, n: nat, size: nat)
    ensures Span(m + n, size) == Span(m, size) + Span(n, size)
  {
    if n > 0 {
      SpanAdd(m, n - 1, size);
    }
  }

  lemma SpanMonotone(m: nat, n: nat, size: nat)
    requires m < n
    ensures Span(m, size) + size == Span(m + 1, size) <= Span(n, size)
  {
    SpanAdd(m + 1, n - m - 1, size);
  }

  lemma SpanAtMost(m: nat, n: nat, size: nat)
    requires m <= n
    ensures Span(m, size) <= Span(n, size)
  {
    SpanAdd(m, n - m, size);
  }

  /** Sample number `k` of a run of packed samples. */
  function SampleAt(rule: Rule, data: seq<byte>, k: nat): (s: seq<byte>)
    requires Span(k, rule.inSize) + rule.inSize <= |data|
    ensures |s| == rule.inSize
  {
    data[Span(k, rule.inSize)..Span(k, rule.inSize) + rule.inSize]
  }

  /** Whole samples in `length` bytes. */
  function SampleCount(rule: Rule, length: nat): (n: nat)
    ensures Span(n, rule.inSize) <= length < Span(n, rule.inSize) + rule.inSize
  {
    SpanIsProduct(length / rule.inSize, rule.inSize);
    length / rule.inSize
  }

  lemma SampleCountUnique(rule: Rule, length: nat, n: nat)
    ensures n <= SampleCount(rule, length) <==> Span(n, rule.inSize) <= length
  {
    var c := SampleCount(rule, length);
    if n < c {
      SpanMonotone(n, c, rule.inSize);
    } else if c < n {
      SpanMonotone(c, n, rule.inSize);
    }
  }

  /** The first `n` samples of `data`, converted one after the other. */
  function Converted(rule: Rule, data: seq<byte>, n: nat): (r: seq<byte>)
    requires Span(n, rule.inSize) <= |data|
    ensures |r| == Span(n, rule.outSize)
  {
    if n == 0 then [] else Converted(rule, data, n - 1) + rule.Sample(SampleAt(rule, data, n - 1))
  }

  /** The one-shot conversion of every whole sample of `data`. */
  function Stream(rule: Rule, data: seq<byte>): (r: seq<byte>)
    ensures |r| == Span(SampleCount(rule, |data|), rule.outSize)
  {
    Converted(rule, data, SampleCount(rule, |data|))
  }

  /** Converted sample `k` sits where `k` output samples end. */
  lemma {:induction false} ConvertedSample(rule: Rule, data: seq<byte>, n: nat, k: nat)
    requires Span(n, rule.inSize) <= |data| && k < n
    ensures Span(k, rule.inSize) + rule.inSize <= |data|
    ensures Span(k, rule.outSize) + rule.outSize <= Span(n, rule.outSize)
    ensures Converted(rule, data, n)[Span(k, rule.outSize)..Span(k, rule.outSize) + rule.outSize]
         == rule.Sample(SampleAt(rule, data, k))
  {
    SpanMonotone(k, n, rule.inSize);
    SpanMonotone(k, n, rule.outSize);
    var front := Converted(rule, data, n - 1);
    var last := rule.Sample(SampleAt(rule, data, n - 1));
    if k < n - 1 {
      ConvertedSample(rule, data, n - 1, k);
      var lo := Span(k, rule.outSize);
      assert (front + last)[lo..lo + rule.outSize] == front[lo..lo + rule.outSize];
    } else {
      assert (front + last)[|front|..] == last;
    }
  }

  /** Bytes beyond the samples converted do not matter. */
  lemma {:induction false} ConvertedPrefix(rule: Rule, data: seq<byte>, data': seq<byte>, n: nat)
    requires Span(n, rule.inSize) <= |data| && Span(n, rule.inSize) <= |data'|
    requires data[..Span(n, rule.inSize)] == data'[..Span(n, rule.inSize)]
    ensures Converted(rule, data, n) == Converted(rule, data', n)
  {
    if n > 0 {
      var lo, hi := Span(n - 1, rule.inSize), Span(n, rule.inSize);
      assert data[..lo] == data[..hi][..lo] == data'[..lo];
      assert SampleAt(rule, data, n - 1) == data[..hi][lo..] == SampleAt(rule, data', n - 1);
      ConvertedPrefix(rule, data, data', n - 1);
    }
  }

  /** Conversion works sample by sample: what follows whole samples is converted as if it stood alone. */
  lemma {:induction false} ConvertedSplit(rule: Rule, data: seq<byte>, skip: nat, n: nat)
    requires Span(skip, rule.inSize) + Span(n, rule.inSize) <= |data|
    ensures Span(skip + n, rule.inSize) <= |data|
    ensures Converted(rule, data, skip + n)
         == Converted(rule, data, skip) + Converted(rule, data[Span(skip, rule.inSize)..], n)
  {
    SpanAdd(skip, n, rule.inSize);
    SplitFrom(rule, data, data[Span(skip, rule.inSize)..], skip, n);
  }

  lemma {:induction false} SplitFrom(rule: Rule, data: seq<byte>, rest: seq<byte>, skip: nat, n: nat)
    requires Span(skip, rule.inSize) + Span(n, rule.inSize) <= |data|
    requires Span(skip + n, rule.inSize) <= |data|
    requires rest == data[Span(skip, rule.inSize)..]
    ensures Converted(rule, data, skip + n) == Converted(rule, data, skip) + Converted(rule, rest, n)
  {
    hide SampleAt;
    if n == 0 {
      assert Converted(rule, rest, 0) == [];
    } else {
      SpanAdd(skip, n - 1, rule.inSize);
      SplitFrom(rule, data, rest, skip, n - 1);
      SampleAtDrop(rule, data, skip, n - 1);
      SplitStep(rule, data, rest, skip + n - 1, n - 1, Converted(rule, data, skip));
    }
  }

  lemma SplitStep(rule: Rule, data: seq<byte>, rest: seq<byte>, k: nat, m: nat, a: seq<byte>)
    requires Span(k, rule.inSize) + rule.inSize <= |data| && Span(m, rule.inSize) + rule.inSize <= |rest|
    requires SampleAt(rule, data, k) == SampleAt(rule, rest, m)
    requires Converted(rule, data, k) == a + Converted(rule, rest, m)
    ensures Converted(rule, data, k + 1) == a + Converted(rule, rest, m + 1)
  {
    OneMore(Converted(rule, data, k + 1), Converted(rule, data, k), a,
            Converted(rule, rest, m + 1), Converted(rule, rest, m), rule.Sample(SampleAt(rule, rest, m)));
  }

  lemma OneMore<T>(whole: seq<T>, front: seq<T>, a: seq<T>, back: seq<T>, b: seq<T>, c: seq<T>)
    requires whole == front + c && front == a + b && back == b + c
    ensures whole == a + back
  {
  }

  lemma ConvertedLast(rule: Rule, data: seq<byte>, n: nat)
    requires 0 < n && Span(n, rule.inSize) <= |data|
    ensures Converted(rule, data, n) == Converted(rule, data, n - 1) + rule.Sample(SampleAt(rule, data, n - 1))
  {
  }

  lemma SampleAtDrop(rule: Rule, data: seq<byte>, skip: nat, k: nat)
    requires Span(skip, rule.inSize) + Span(k, rule.inSize) + rule.inSize <= |data|
    ensures Span(skip + k, rule.inSize) + rule.inSize <= |data|
    ensures SampleAt(rule, data, skip + k) == SampleAt(rule, data[Span(skip, rule.inSize)..], k)
  {
    SpanAdd(skip, k, rule.inSize);
    var a, b := Span(skip, rule.inSize), Span(k, rule.inSize);
    assert data[a..][b..b + rule.inSize] == data[a + b..a + b + rule.inSize];
  }

  lemma {:induction false} RoundTrip(up: Rule, down: Rule, data: seq<byte>, n: nat)
    requires up.inSize == down.outSize && up.outSize == down.inSize
    requires forall s: seq<byte> :: |s| == up.inSize ==> down.Sample(up.Sample(s)) == s
    requires Span(n, up.inSize) <= |data|
    ensures Converted(down, Converted(up, data, n), n) == data[..Span(n, up.inSize)]
  {
    if n > 0 {
      SpanMonotone(n - 1, n, up.inSize);
      var front, s := Converted(up, data, n - 1), SampleAt(up, data, n - 1);
      ConvertedLast(up, data, n);
      RoundTrip(up, down, data, n - 1);
      AtTheEnd(down, front, up.Sample(s), n);
      FrontGrows(up, data, n);
    }
  }

  lemma FrontGrows(rule: Rule, data: seq<byte>, n: nat)
    requires n > 0 && Span(n, rule.inSize) <= |data|
    ensures data[..Span(n, rule.inSize)] == data[..Span(n - 1, rule.inSize)] + SampleAt(rule, data, n - 1)
  {
  }

  lemma AtTheEnd(rule: Rule, front: seq<byte>, last: seq<byte>, n: nat)
    requires n > 0 && |front| == Span(n - 1, rule.inSize) && |last| == rule.inSize
    ensures Converted(rule, front + last, n) == Converted(rule, front, n - 1) + rule.Sample(last)
  {
    var all := front + last;
    assert all[..|front|] == front[..|front|];
    ConvertedPrefix(rule, all, front, n - 1);
    assert SampleAt(rule, all, n - 1) == last;
    ConvertedLast(rule, all, n);
  }

  /** How many source samples a converter call touches. */
  function Touched(samples: nat, head: nat, tail: nat): nat {
    samples + (if head != 0 then 1 else 0) + (if tail != 0 then 1 else 0)
  }

  /** The bytes a converter call writes. */
  function SliceLength(outSize: SampleSize, samples: nat, head: nat, tail: nat): nat {
    head + Span(samples, outSize) + tail
  }

  /** What wuff_read promises a converter about its slicing arguments. */
  predicate SliceArguments(outSize: SampleSize, samples: nat, offset: nat, head: nat, tail: nat) {
    && (head == 0 <==> offset == 0)
    && offset + head <= outSize
    && (head != 0 && samples + tail > 0 ==> offset + head == outSize)
    && tail < outSize
  }

  /** The bytes a converter call writes lie inside the samples it touches. */
  lemma SliceInRange(outSize: SampleSize, samples: nat, offset: nat, head: nat, tail: nat)
    requires SliceArguments(outSize, samples, offset, head, tail)
    ensures offset + SliceLength(outSize, samples, head, tail) <= Span(Touched(samples, head, tail), outSize)
  {
    SpanAdd(1, samples, outSize);
    assert Span(1, outSize) == outSize;
    assert Span(samples + 2, outSize) == Span(samples + 1, outSize) + outSize;
  }

  /** `now` is `was` with the asked-for slice of the full conversion of `data` at its front, and nothing else changed.
      */
  ghost predicate Written(rule: Rule, data: seq<byte>, now: seq<byte>, was: seq<byte>,
                          samples: nat, offset: nat, head: nat, tail: nat)
    requires SliceArguments(rule.outSize, samples, offset, head, tail)
    requires Span(Touched(samples, head, tail), rule.inSize) <= |data|
  {
    var n := SliceLength(rule.outSize, samples, head, tail);
    SliceInRange(rule.outSize, samples, offset, head, tail);
    && n <= |was| == |now|
    && now[..n] == Converted(rule, data, Touched(samples, head, tail))[offset..offset + n]
    && now[n..] == was[n..]
  }

  lemma WrittenMeans(rule: Rule, data: seq<byte>, now: seq<byte>, was: seq<byte>,
                     samples: nat, offset: nat, head: nat, tail: nat)
    requires SliceArguments(rule.outSize, samples, offset, head, tail)
    requires Span(Touched(samples, head, tail), rule.inSize) <= |data|
    requires Written(rule, data, now, was, samples, offset, head, tail)
    ensures var n := SliceLength(rule.outSize, samples, head, tail);
      && n <= |was| == |now| && now[n..] == was[n..]
      && offset + n <= |Converted(rule, data, Touched(samples, head, tail))|
      && now[..n] == Converted(rule, data, Touched(samples, head, tail))[offset..offset + n]
  {
    SliceInRange(rule.outSize, samples, offset, head, tail);
  }

  /** Same format in and out. */
  ghost predicate IsCopy(rule: Rule) {
    rule.inSize == rule.outSize && forall s: seq<byte> :: |s| == rule.inSize ==> rule.Sample(s) == s
  }

  /** Same format in and out: the conversion is the data itself. */
  lemma {:induction false} ConvertedIsCopy(rule: Rule, data: seq<byte>, n: nat)
    requires IsCopy(rule)
    requires Span(n, rule.inSize) <= |data|
    ensures Converted(rule, data, n) == data[..Span(n, rule.inSize)]
  {
    if n > 0 {
      ConvertedIsCopy(rule, data, n - 1);
    }
  }

  /** The six same-format converters: one memcpy from the middle of the first sample. */
  method CopyThrough(rule: Rule, dst: array<byte>, src: array<byte>, at: nat,
                     samples: nat, offset: nat, head: nat, tail: nat)
    requires dst != src && IsCopy(rule)
    requires SliceArguments(rule.outSize, samples, offset, head, tail)
    requires at + Span(Touched(samples, head, tail), rule.inSize) <= src.Length
    requires SliceLength(rule.outSize, samples, head, tail) <= dst.Length
    modifies dst
    ensures Written(rule, src[at..], dst[..], old(dst[..]), samples, offset, head, tail)
  {
    var n := SliceLength(rule.outSize, samples, head, tail);
    SliceInRange(rule.outSize, samples, offset, head, tail);
    ghost var data, was := src[at..], dst[..];
    ghost var copied := src[at + offset..at + offset + n];
    assert copied == data[offset..offset + n] by {
      SubSlice(src[..], at, |data|, offset, n);
      assert data == src[..][at..at + |data|];
    }
    CopyInto(dst, 0, src[at + offset..at + offset + n]);
    assert dst[..n] == copied && dst[n..] == was[n..];
    CopyWritten(rule, data, dst[..], was, samples, offset, head, tail);
  }

  lemma CopyWritten(rule: Rule, data: seq<byte>, now: seq<byte>, was: seq<byte>,
                    samples: nat, offset: nat, head: nat, tail: nat)
    requires IsCopy(rule)
    requires SliceArguments(rule.outSize, samples, offset, head, tail)
    requires Span(Touched(samples, head, tail), rule.inSize) <= |data|
    requires var n := SliceLength(rule.outSize, samples, head, tail);
      n <= |now| == |was| && offset + n <= |data| && now[..n] == data[offset..offset + n] && now[n..] == was[n..]
    ensures Written(rule, data, now, was, samples, offset, head, tail)
  {
    var touched, n := Touched(samples, head, tail), SliceLength(rule.outSize, samples, head, tail);
    SliceInRange(rule.outSize, samples, offset, head, tail);
    ConvertedIsCopy(rule, data, touched);
    SubSlice(data, 0, Span(touched, rule.inSize), offset, n);
  }

  /** The converters to unsigned 8-bit: no sample can be split, so head, tail and offset are ignored. */
  method ToUnsigned8(rule: Rule, dst: array<byte>, src: array<byte>, at: nat, samples: nat)
    requires dst != src && rule.outSize == 1
    requires at + Span(samples, rule.inSize) <= src.Length && samples <= dst.Length
    modifies dst
    ensures SliceLength(rule.outSize, samples, 0, 0) == samples
    ensures Written(rule, src[at..], dst[..], old(dst[..]), samples, 0, 0, 0)
  {
    ghost var all := Converted(rule, src[at..], samples);
    SpanIsProduct(samples, 1);
    for i := 0 to samples
      invariant Filled(dst[..], old(dst[..]), all, 0, i)
    {
      SpanIsProduct(i, 1);
      AppendPart(rule, dst, src, at, i, 0, i, 1, old(dst[..]), all, 0, samples);
    }
    FilledWritten(rule, src[at..], dst[..], old(dst[..]), samples, 0, 0, 0);
  }

  /** `now` starts with `w` bytes of `all` from `offset` on and is `was` behind them. */
  ghost predicate Filled(now: seq<byte>, was: seq<byte>, all: seq<byte>, offset: nat, w: nat) {
    && w <= |now| == |was| && offset + w <= |all|
    && (forall j :: 0 <= j < w ==> now[j] == all[offset + j])
    && (forall j :: w <= j < |now| ==> now[j] == was[j])
  }

  lemma FilledWritten(rule: Rule, data: seq<byte>, now: seq<byte>, was: seq<byte>,
                      samples: nat, offset: nat, head: nat, tail: nat)
    requires SliceArguments(rule.outSize, samples, offset, head, tail)
    requires Span(Touched(samples, head, tail), rule.inSize) <= |data|
    requires Filled(now, was, Converted(rule, data, Touched(samples, head, tail)), offset,
                    SliceLength(rule.outSize, samples, head, tail))
    ensures Written(rule, data, now, was, samples, offset, head, tail)
  {
  }

  /** The remaining converters: a partial first sample, a loop over whole ones, a partial last one. */
  method Sliced(rule: Rule, dst: array<byte>, src: array<byte>, at: nat,
                samples: nat, offset: nat, head: nat, tail: nat)
    requires dst != src
    requires SliceArguments(rule.outSize, samples, offset, head, tail)
    requires at + Span(Touched(samples, head, tail), rule.inSize) <= src.Length
    requires SliceLength(rule.outSize, samples, head, tail) <= dst.Length
    modifies dst
    ensures Written(rule, src[at..], dst[..], old(dst[..]), samples, offset, head, tail)
  {
    ghost var touched, was := Touched(samples, head, tail), dst[..];
    ghost var all := Converted(rule, src[at..], touched);
    SliceInRange(rule.outSize, samples, offset, head, tail);
    var o: nat := rule.outSize;
    var first, out: nat := 0, 0;
    if head != 0 {
      AppendPart(rule, dst, src, at, 0, offset, 0, head, was, all, offset, touched);
      first, out := 1, head;
    }
    for i := 0 to samples
      invariant out == head + Span(i, o)
      invariant Filled(dst[..], was, all, offset, out)
      invariant samples + tail > 0 ==> offset + out == Span(first + i, o)
    {
      SpanMonotone(i, samples, o);
      AppendPart(rule, dst, src, at, first + i, 0, out, o, was, all, offset, touched);
      out := out + o;
    }
    if tail != 0 {
      AppendPart(rule, dst, src, at, first + samples, 0, out, tail, was, all, offset, touched);
    }
    FilledWritten(rule, src[at..], dst[..], was, samples, offset, head, tail);
  }

  /** Converts source sample `k` and copies `n` of its bytes, from byte `p` on, behind the `w` bytes already there. */
  method AppendPart(rule: Rule, dst: array<byte>, src: array<byte>, at: nat, k: nat, p: nat, w: nat, n: nat,
                    ghost was: seq<byte>, ghost all: seq<byte>, ghost offset: nat, ghost touched: nat)
    requires dst != src
    requires at + Span(touched, rule.inSize) <= src.Length && k < touched
    requires all == Converted(rule, src[at..], touched)
    requires p + n <= rule.outSize && w + n <= dst.Length
    requires offset + w == Span(k, rule.outSize) + p
    requires Filled(dst[..], was, all, offset, w)
    modifies dst
    ensures Filled(dst[..], was, all, offset, w + n)
  {
    ConvertedSample(rule, src[at..], touched, k);
    var lo := at + Span(k, rule.inSize);
    var s := src[lo..lo + rule.inSize];
    SubSlice(src[..], at, |src[at..]|, Span(k, rule.inSize), rule.inSize);
    assert src[at..] == src[..][at..at + |src[at..]|];
    PartOf(all, rule.Sample(s), Span(k, rule.outSize), p, n);
    ghost var before := dst[..];
    CopyInto(dst, w, rule.Sample(s)[p..p + n]);
    FillMore(before, dst[..], was, all, offset, w, rule.Sample(s)[p..p + n]);
  }

  /** A memcpy behind a finished front extends it. */
  lemma FillMore(before: seq<byte>, now: seq<byte>, was: seq<byte>, all: seq<byte>, offset: nat, w: nat, c: seq<byte>)
    requires Filled(before, was, all, offset, w)
    requires w + |c| <= |now| == |before| && offset + w + |c| <= |all|
    requires c == all[offset + w..offset + w + |c|]
    requires forall j :: w <= j < w + |c| ==> now[j] == c[j - w]
    requires forall j :: 0 <= j < |now| && !(w <= j < w + |c|) ==> now[j] == before[j]
    ensures Filled(now, was, all, offset, w + |c|)
  {
    forall j | w <= j < w + |c|
      ensures now[j] == all[offset + j]
    {
      assert c[j - w] == all[offset + w..offset + w + |c|][j - w];
    }
  }

  lemma PartOf(all: seq<byte>, s: seq<byte>, lo: nat, p: nat, n: nat)
    requires lo + |s| <= |all| && s == all[lo..lo + |s|] && p + n <= |s|
    ensures s[p..p + n] == all[lo + p..lo + p + n]
  {
    var l, r := s[p..p + n], all[lo + p..lo + p + n];
    forall j | 0 <= j < n
      ensures l[j] == r[j]
    {
      assert s[p + j] == all[lo..lo + |s|][p + j];
    }
  }

  /** A slice converted out of a buffered window is the matching stretch of the one-shot conversion. */
  lemma SliceOfStream(rule: Rule, data: seq<byte>, consumed: nat, window: seq<byte>, held: nat, touched: nat,
                      phase: nat, n: nat)
    requires Span(consumed, rule.inSize) + held <= |data| && held <= |window|
    requires window[..held] == data[Span(consumed, rule.inSize)..Span(consumed, rule.inSize) + held]
    requires Span(touched, rule.inSize) <= held
    requires phase + n <= Span(touched, rule.outSize)
    ensures Span(consumed, rule.outSize) + phase + n <= |Stream(rule, data)|
    ensures Converted(rule, window, touched)[phase..phase + n]
         == Stream(rule, data)[Span(consumed, rule.outSize) + phase..Span(consumed, rule.outSize) + phase + n]
  {
    hide Converted, Span, Stream;
    WindowConverted(rule, data, Span(consumed, rule.inSize), window, held, touched);
    var last := StreamInThree(rule, data, consumed, touched);
    MiddleOf(Converted(rule, data, consumed), Converted(rule, window, touched), last, phase, n);
  }

  lemma WindowConverted(rule: Rule, data: seq<byte>, lo: nat, window: seq<byte>, held: nat, touched: nat)
    requires lo + held <= |data| && held <= |window|
    requires window[..held] == data[lo..lo + held]
    requires Span(touched, rule.inSize) <= held
    ensures Converted(rule, window, touched) == Converted(rule, data[lo..], touched)
  {
    SameFront(window, held, data, lo, Span(touched, rule.inSize));
    ConvertedPrefix(rule, window, data[lo..], touched);
  }

  lemma SameFront(window: seq<byte>, held: nat, data: seq<byte>, lo: nat, t: nat)
    requires t <= held <= |window| && lo + held <= |data|
    requires window[..held] == data[lo..lo + held]
    ensures window[..t] == data[lo..][..t]
  {
    assert window[..t] == window[..held][..t];
    assert data[lo..][..t] == data[lo..lo + held][..t];
  }

  lemma StreamInThree(rule: Rule, data: seq<byte>, consumed: nat, touched: nat) returns (last: seq<byte>)
    requires Span(consumed, rule.inSize) + Span(touched, rule.inSize) <= |data|
    ensures Stream(rule, data)
         == Converted(rule, data, consumed) + Converted(rule, data[Span(consumed, rule.inSize)..], touched) + last
  {
    var upTo, count := consumed + touched, SampleCount(rule, |data|);
    SpanAdd(consumed, touched, rule.inSize);
    SampleCountUnique(rule, |data|, upTo);
    var more := count - upTo;
    SpanAdd(upTo, more, rule.inSize);
    ConvertedSplit(rule, data, consumed, touched);
    ConvertedSplit(rule, data, upTo, more);
    last := Converted(rule, data[Span(upTo, rule.inSize)..], more);
    assert Converted(rule, data, count) == Converted(rule, data, upTo) + last by {
      assert count == upTo + more;
    }
  }

  lemma MiddleOf<T>(a: seq<T>, b: seq<T>, c: seq<T>, i: nat, n: nat)
    requires i + n <= |b|
    ensures (a + b + c)[|a| + i..|a| + i + n] == b[i..i + n]
  {
  }
}
