/**
  Fixed-width records laid end to end. The STL record area is such a
  sequence of 50-byte records; the facts here hold for any record type and
  any encoder whose output has a fixed width.
 */
module Records {
  import opened LittleEndian

  /** The encodings of `xs`, each appended after those of the records before it. */
  function Concat<T(!new)>(enc: T -> seq<byte>, xs: seq<T>): seq<byte>
  {
    if xs == [] then [] else Concat(enc, xs[..|xs| - 1]) + enc(xs[|xs| - 1])
  }

  /** Every record encodes to exactly `w` bytes. */
  ghost predicate FixedWidth<T(!new)>(enc: T -> seq<byte>, w: nat)
  {
    forall x :: |enc(x)| == w
  }

  /** `dec` is defined on every `w`-byte string. */
  ghost predicate DecodesWidth<T(!new)>(dec: seq<byte> --> T, w: nat)
  {
    forall b: seq<byte> | |b| == w :: dec.requires(b)
  }

  lemma {:induction false} ConcatLength<T(!new)>(enc: T -> seq<byte>, w: nat, xs: seq<T>)
    requires FixedWidth(enc, w)
    ensures |Concat(enc, xs)| == w * |xs|
  {
    if xs != [] {
      ConcatLength(enc, w, xs[..|xs| - 1]);
      assert |enc(xs[|xs| - 1])| == w;
      MulNext(w, |xs| - 1);
    }
  }

  /** Record `i` occupies bytes [w i, w i + w). */
  lemma {:induction false} ConcatAt<T(!new)>(enc: T -> seq<byte>, w: nat, xs: seq<T>, i: nat)
    requires FixedWidth(enc, w) && i < |xs|
    ensures w * i + w <= |Concat(enc, xs)|
    ensures Concat(enc, xs)[w * i..w * i + w] == enc(xs[i])
  {
    var n := |xs| - 1;
    var head := Concat(enc, xs[..n]);
    ConcatLength(enc, w, xs[..n]);
    ConcatLength(enc, w, xs);
    assert |enc(xs[n])| == w;
    assert Concat(enc, xs) == head + enc(xs[n]);
    if i < n {
      ConcatAt(enc, w, xs[..n], i);
      assert xs[..n][i] == xs[i];
      MulMonotone(w, i + 1, n);
      assert Concat(enc, xs)[w * i..w * i + w] == head[w * i..w * i + w];
    } else {
      assert Concat(enc, xs)[w * n..w * n + w] == enc(xs[n]);
    }
  }

  lemma MulMonotone(w: nat, a: nat, b: nat)
    requires a <= b
    ensures w * a <= w * b
  {
  }

  lemma MulNext(w: nat, n: nat)
    ensures w * n + w == w * (n + 1)
  {
  }

  /** A slice of the `k` bytes at `p` is the corresponding slice of the whole. */
  lemma SubSlice(bs: seq<byte>, p: nat, k: nat, a: nat, b: nat)
    requires a <= b <= k && p + k <= |bs|
    ensures bs[p..p + k][a..b] == bs[p + a..p + b]
  {
    var window := bs[p..p + k];
    assert forall j :: 0 <= j < b - a ==> window[a..b][j] == window[a + j] == bs[p + a + j];
  }

  /** The `n` records of a string of exactly `n` records. */
  function Split<T(!new)>(dec: seq<byte> --> T, w: nat, bs: seq<byte>, n: nat): (xs: seq<T>)
    requires DecodesWidth(dec, w)
    requires |bs| == w * n
    ensures |xs| == n
  {
    if n == 0 then []
    else
      var cut := w * (n - 1);
      MulNext(w, n - 1);
      Split(dec, w, bs[..cut], n - 1) + [dec(bs[cut..])]
  }

  /**
    In the records that start at offset `o`, splitting the first `i + 1`
    extends the split of the first `i` by the record at `o + w i`.
   */
  lemma SplitStep<T(!new)>(dec: seq<byte> --> T, w: nat, bs: seq<byte>, o: nat, i: nat)
    requires DecodesWidth(dec, w)
    requires o + w * i + w <= |bs|
    ensures Split(dec, w, bs[o..][..w * i + w], i + 1)
         == Split(dec, w, bs[o..][..w * i], i) + [dec(bs[o + w * i..o + w * i + w])]
  {
    var area := bs[o..];
    var bs' := area[..w * i + w];
    assert bs'[..w * i] == area[..w * i];
    assert bs'[w * i..] == bs[o + w * i..o + w * i + w];
  }

  lemma {:induction false} SplitConcat<T(!new)>(enc: T -> seq<byte>, dec: seq<byte> --> T, w: nat, xs: seq<T>)
    requires FixedWidth(enc, w) && DecodesWidth(dec, w)
    requires forall x :: dec(enc(x)) == x
    ensures |Concat(enc, xs)| == w * |xs|
    ensures Split(dec, w, Concat(enc, xs), |xs|) == xs
  {
    ConcatLength(enc, w, xs);
    if xs != [] {
      var n := |xs| - 1;
      var head := Concat(enc, xs[..n]);
      ConcatLength(enc, w, xs[..n]);
      assert |enc(xs[n])| == w;
      MulNext(w, n);
      var bs := head + enc(xs[n]);
      assert Concat(enc, xs) == bs;
      assert bs[..w * n] == head;
      assert bs[w * n..] == enc(xs[n]);
      SplitConcat(enc, dec, w, xs[..n]);
      assert xs == xs[..n] + [xs[n]];
    }
  }

  lemma {:induction false} ConcatSplit<T(!new)>(enc: T -> seq<byte>, dec: seq<byte> --> T, w: nat, bs: seq<byte>, n: nat)
    requires DecodesWidth(dec, w)
    requires forall b: seq<byte> | |b| == w :: enc(dec(b)) == b
    requires |bs| == w * n
    ensures Concat(enc, Split(dec, w, bs, n)) == bs
  {
    if n > 0 {
      var cut := w * (n - 1);
      MulNext(w, n - 1);
      var xs := Split(dec, w, bs, n);
      var head, last := bs[..cut], bs[cut..];
      assert xs == Split(dec, w, head, n - 1) + [dec(last)];
      assert xs[..n - 1] == Split(dec, w, head, n - 1);
      ConcatSplit(enc, dec, w, head, n - 1);
      assert enc(dec(last)) == last;
      assert bs == head + last;
    }
  }
}
