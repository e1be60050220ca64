// The arity arithmetic of the generated view code: how one of `size`
// alternatives is wrapped into Leptos' `Either`/`EitherOfN` enums (which have at
// most 16 variants), and how a long list of values is nested into tuples of at
// most 26 elements.
module Codegen {
  import opened Wrappers

  /** How a choice among `size` alternatives is encoded. `Multiple(n)` stands for
    * the `EitherOf{n}` enum; `Nested` is an `EitherOf16` whose last variant holds
    * the rest. */
  datatype EitherOfWrapper = Single | Duo | Multiple(size: nat) | Nested(last: EitherOfWrapper)

  /** The generated expression: the wrapped value inside enum constructors.
    * `Variant(n, c, _)` is `EitherOf{n}::{c}(_)`. */
  datatype Wrapped<T> =
    | Plain(value: T)
    | Left(inner: Wrapped<T>)
    | Right(inner: Wrapped<T>)
    | Variant(either: nat, letter: char, inner: Wrapped<T>)

  const Letters: string := "ABCDEFGHIJKLMNOP"

  /** How many alternatives a wrapper distinguishes. */
  function Capacity(w: EitherOfWrapper): nat {
    match w
    case Single => 1
    case Duo => 2
    case Multiple(n) => n
    case Nested(last) => 15 + Capacity(last)
  }

  /** A wrapper `New` can build: every `EitherOf{n}` it names exists (3 to 16). */
  predicate Valid(w: EitherOfWrapper) {
    match w
    case Multiple(n) => 3 <= n <= 16
    case Nested(last) => Valid(last)
    case _ => true
  }

  /** `EitherOfWrapper::new`; a size of 0 is unreachable and gives `None`. */
  function New(size: nat): (r: Option<EitherOfWrapper>)
    ensures r.None? <==> size == 0
    ensures r.Some? ==> Valid(r.value) && Capacity(r.value) == size
    decreases size
  {
    if size == 0 then None
    else if size == 1 then Some(Single)
    else if size == 2 then Some(Duo)
    else if size <= 16 then Some(Multiple(size))
    else
      var last := New(size - 15);
      Some(Nested(last.value))
  }

  /** `EitherOfWrapper::wrap`: `None` where indexing the letter table would
    * panic (index 16 or more on a `Multiple`). */
  function Wrap<T>(w: EitherOfWrapper, i: nat, ts: T): (r: Option<Wrapped<T>>)
    ensures Valid(w) && i < Capacity(w) ==> r.Some?
  {
    match w
    case Single => Some(Plain(ts))
    case Duo => if i == 0 then Some(Left(Plain(ts))) else Some(Right(Plain(ts)))
    case Multiple(n) => if i < |Letters| then Some(Variant(n, Letters[i], Plain(ts))) else None
    case Nested(last) =>
      if i <= 14 then Some(Variant(16, Letters[i], Plain(ts)))
      else
        match Wrap(last, i - 15, ts)
        case None => None
        case Some(inner) => Some(Variant(16, Letters[15], inner))
  }

  function LetterIndex(c: char): (r: Option<nat>)
    ensures r.Some? ==> r.value < |Letters| && Letters[r.value] == c
    ensures forall i :: 0 <= i < |Letters| && Letters[i] == c ==> r == Some(i)
  {
    if 'A' <= c <= 'P' then Some((c - 'A') as nat) else None
  }

  /** Reads back which alternative an expression selects, and its payload. */
  function Unwrap<T>(w: EitherOfWrapper, e: Wrapped<T>): (r: Option<(nat, T)>)
  {
    match w
    case Single => if e.Plain? then Some((0, e.value)) else None
    case Duo =>
      if e.Left? && e.inner.Plain? then Some((0, e.inner.value))
      else if e.Right? && e.inner.Plain? then Some((1, e.inner.value))
      else None
    case Multiple(n) =>
      if e.Variant? && e.either == n && e.inner.Plain? then
        match LetterIndex(e.letter)
        case Some(i) => if i < n then Some((i, e.inner.value)) else None
        case None => None
      else None
    case Nested(last) =>
      if e.Variant? && e.either == 16 then
        match LetterIndex(e.letter)
        case None => None
        case Some(i) =>
          if i <= 14 then (if e.inner.Plain? then Some((i, e.inner.value)) else None)
          else
            match Unwrap(last, e.inner)
            case Some((j, v)) => Some((j + 15, v))
            case None => None
      else None
  }

  /** Every alternative is wrapped into an expression from which both the index
    * and the payload come back, so distinct alternatives never collide. */
  lemma {:induction false} WrapUnwrap<T>(w: EitherOfWrapper, i: nat, ts: T)
    requires Valid(w) && i < Capacity(w)
    ensures Wrap(w, i, ts).Some? && Unwrap(w, Wrap(w, i, ts).value) == Some((i, ts))
  {
    match w
    case Single =>
    case Duo =>
    case Multiple(n) =>
    case Nested(last) =>
      if i > 14 {
        WrapUnwrap(last, i - 15, ts);
      }
  }

  /** Wrapping is injective on the alternatives of a built wrapper. */
  lemma WrapInjective<T>(w: EitherOfWrapper, i: nat, j: nat, a: T, b: T)
    requires Valid(w) && i < Capacity(w) && j < Capacity(w)
    requires Wrap(w, i, a) == Wrap(w, j, b)
    ensures i == j && a == b
  {
    WrapUnwrap(w, i, a);
    WrapUnwrap(w, j, b);
  }

  /** A `Duo` picks `Left` exactly for index 0. */
  lemma DuoLeft<T>(i: nat, ts: T)
    ensures Wrap(Duo, i, ts).value.Left? <==> i == 0
  {
  }

  const TupleMaxSize: nat := 26

  /** A generated tuple expression: a value, or a tuple of generated expressions. */
  datatype Tuple<T> = Leaf(value: T) | Node(items: seq<Tuple<T>>)

  /** `slice::chunks`: consecutive pieces of `size`, the last possibly shorter. */
  function Chunks<T>(v: seq<T>, size: nat): (r: seq<seq<T>>)
    requires size > 0
    ensures forall k :: 0 <= k < |r| ==> 0 < |r[k]| <= size
    decreases |v|
  {
    if |v| == 0 then []
    else if |v| <= size then [v]
    else [v[..size]] + Chunks(v[size..], size)
  }

  function Concat<T>(vs: seq<seq<T>>): seq<T> {
    if |vs| == 0 then [] else vs[0] + Concat(vs[1..])
  }

  lemma {:induction false} ChunksConcat<T>(v: seq<T>, size: nat)
    requires size > 0
    ensures Concat(Chunks(v, size)) == v
    decreases |v|
  {
    if |v| > size {
      ChunksConcat(v[size..], size);
      assert v == v[..size] + v[size..];
    }
  }

  /** The number of chunks is the ceiling of `|v| / size`. */
  lemma {:induction false} ChunksCount<T>(v: seq<T>, size: nat)
    requires size > 0
    ensures (|Chunks(v, size)| - 1) * size < |v| <= |Chunks(v, size)| * size || |v| == 0
    decreases |v|
  {
    if |v| > size {
      ChunksCount(v[size..], size);
      var k := |Chunks(v[size..], size)|;
      assert (k - 1) * size < |v| - size <= k * size;
      assert (k + 1 - 1) * size == (k - 1) * size + size;
      assert (k + 1) * size == k * size + size;
    }
  }

  /** `usize::div_ceil`. */
  function DivCeil(n: nat, d: nat): nat
    requires d > 0
  {
    (n + d - 1) / d
  }

  /** `fit_in_leptos_tuple`. */
  function FitInLeptosTuple<T>(values: seq<T>): (r: Tuple<T>)
    decreases |values|
  {
    if |values| <= TupleMaxSize then Node(seq(|values|, k requires 0 <= k < |values| => Leaf(values[k])))
    else
      var size := DivCeil(|values|, TupleMaxSize);
      var chunks := Chunks(values, size);
      Node(seq(|chunks|, k requires 0 <= k < |chunks| => FitInLeptosTuple(chunks[k])))
  }

  /** The values of a generated tuple, left to right. */
  function Flatten<T>(t: Tuple<T>): seq<T>
    decreases t
  {
    match t
    case Leaf(v) => [v]
    case Node(items) => FlattenAll(items)
  }

  function FlattenAll<T>(items: seq<Tuple<T>>): seq<T>
    decreases items
  {
    if |items| == 0 then [] else Flatten(items[0]) + FlattenAll(items[1..])
  }

  /** No generated tuple exceeds the arity Leptos implements traits for. */
  predicate FitsArity<T>(t: Tuple<T>)
    decreases t
  {
    match t
    case Leaf(_) => true
    case Node(items) => |items| <= TupleMaxSize && forall k :: 0 <= k < |items| ==> FitsArity(items[k])
  }

  lemma {:induction false} FlattenLeaves<T>(values: seq<T>)
    ensures FlattenAll(seq(|values|, k requires 0 <= k < |values| => Leaf(values[k]))) == values
    decreases |values|
  {
    var leaves := seq(|values|, k requires 0 <= k < |values| => Leaf(values[k]));
    if |values| > 0 {
      FlattenLeaves(values[1..]);
      assert leaves[1..] == seq(|values[1..]|, k requires 0 <= k < |values[1..]| => Leaf(values[1..][k]));
      assert values == [values[0]] + values[1..];
    }
  }

  /** When the chunks are flattened one by one, the result is their concatenation. */
  lemma {:induction false} FlattenChunks<T>(chunks: seq<seq<T>>, items: seq<Tuple<T>>)
    requires |items| == |chunks|
    requires forall k :: 0 <= k < |chunks| ==> Flatten(items[k]) == chunks[k]
    ensures FlattenAll(items) == Concat(chunks)
    decreases |chunks|
  {
    if |chunks| > 0 {
      FlattenChunks(chunks[1..], items[1..]);
    }
  }

  lemma MulCancel(a: int, b: int, c: nat)
    requires c > 0 && a * c < b * c
    ensures a < b
  {
  }

  /** Ceiling division by the ceiling of `n / 26` yields at most 26 chunks. */
  lemma ChunkBound(n: nat, k: nat, size: nat)
    requires n > TupleMaxSize && size == DivCeil(n, TupleMaxSize)
    requires (k - 1) * size < n
    ensures k <= TupleMaxSize
  {
    assert n <= TupleMaxSize * size;
    MulCancel(k - 1, TupleMaxSize, size);
  }

  /** `fit_in_leptos_tuple` keeps every value, in order, and never builds a
    * tuple of more than 26 elements. */
  lemma {:induction false} FitPreservesOrder<T>(values: seq<T>)
    ensures Flatten(FitInLeptosTuple(values)) == values
    ensures FitsArity(FitInLeptosTuple(values))
    decreases |values|
  {
    if |values| <= TupleMaxSize {
      FlattenLeaves(values);
    } else {
      var size := DivCeil(|values|, TupleMaxSize);
      var chunks := Chunks(values, size);
      var items := seq(|chunks|, k requires 0 <= k < |chunks| => FitInLeptosTuple(chunks[k]));
      assert FitInLeptosTuple(values) == Node(items);
      forall k | 0 <= k < |chunks|
        ensures Flatten(items[k]) == chunks[k] && FitsArity(items[k])
      {
        assert |chunks[k]| <= size < |values|;
        FitPreservesOrder(chunks[k]);
      }
      FlattenChunks(chunks, items);
      ChunksConcat(values, size);
      ChunksCount(values, size);
      ChunkBound(|values|, |chunks|, size);
    }
  }
}
