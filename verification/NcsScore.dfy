/** The score of hierarchical clustering (ncs.c) as a function of document lists alone:
    what the header comment of ncs.c calls SC, under the logarithm. */
module NcsScore {

  /** What the scores are computed from: the total term frequency of each document, the
      matrix P(d|{e}) and the logarithm, about which nothing is assumed. */
  datatype Corpus = Corpus(freq: seq<int>, P: seq<seq<real>>, log: real -> real) {

    ghost predicate Valid() {
      && |P| == |freq|
      && (forall d :: 0 <= d < |P| ==> |P[d]| == |freq|)
      && (forall d :: 0 <= d < |freq| ==> 0 < freq[d])
    }

    ghost predicate Docs(ds: seq<nat>) {
      |ds| > 0 && forall i :: 0 <= i < |ds| ==> ds[i] < |freq|
    }

    /** TF(.|c): the frequencies of the documents of a cluster. */
    function FreqSum(ds: seq<nat>): int
      requires forall i :: 0 <= i < |ds| ==> ds[i] < |freq|
    {
      if |ds| == 0 then 0 else FreqSum(ds[..|ds| - 1]) + freq[ds[|ds| - 1]]
    }

    /** The frequency-weighted sum of row d over the documents of a cluster. */
    function RowSum(d: nat, ds: seq<nat>): real
      requires Valid() && d < |freq| && forall i :: 0 <= i < |ds| ==> ds[i] < |freq|
    {
      if |ds| == 0 then 0.0
      else RowSum(d, ds[..|ds| - 1]) + freq[ds[|ds| - 1]] as real * P[d][ds[|ds| - 1]]
    }

    lemma {:induction false} FreqSumPositive(ds: seq<nat>)
      requires Valid() && Docs(ds)
      ensures FreqSum(ds) > 0
    {
      if |ds| > 1 {
        FreqSumPositive(ds[..|ds| - 1]);
      }
    }

    /** P(d|c): the frequency-weighted mean of the columns of the documents of c. */
    function Mean(d: nat, ds: seq<nat>): real
      requires Valid() && d < |freq| && Docs(ds)
    {
      FreqSumPositive(ds);
      Quotient(RowSum(d, ds), FreqSum(ds))
    }

    lemma MeanOfOne(d: nat, e: nat)
      requires Valid() && d < |freq| && e < |freq|
      ensures Mean(d, [e]) == P[d][e]
    {
      assert [e][..0] == [] && RowSum(d, [e][..0]) == 0.0 && FreqSum([e][..0]) == 0;
      var f := freq[e] as real;
      assert f * P[d][e] / f == P[d][e];
    }

    lemma {:induction false} FreqSumAppend(a: seq<nat>, b: seq<nat>)
      requires (forall i :: 0 <= i < |a| ==> a[i] < |freq|) && (forall i :: 0 <= i < |b| ==> b[i] < |freq|)
      ensures FreqSum(a + b) == FreqSum(a) + FreqSum(b)
      decreases |b|
    {
      if |b| == 0 {
        assert a + b == a;
      } else {
        assert (a + b)[..|a + b| - 1] == a + b[..|b| - 1];
        FreqSumAppend(a, b[..|b| - 1]);
      }
    }

    lemma {:induction false} RowSumAppend(d: nat, a: seq<nat>, b: seq<nat>)
      requires Valid() && d < |freq|
      requires (forall i :: 0 <= i < |a| ==> a[i] < |freq|) && (forall i :: 0 <= i < |b| ==> b[i] < |freq|)
      ensures RowSum(d, a + b) == RowSum(d, a) + RowSum(d, b)
      decreases |b|
    {
      if |b| == 0 {
        assert a + b == a;
      } else {
        assert (a + b)[..|a + b| - 1] == a + b[..|b| - 1];
        RowSumAppend(d, a, b[..|b| - 1]);
      }
    }

    /** The recurrence of merge: the mean of a union is the weighted mean of the means. */
    lemma MeanOfUnion(d: nat, a: seq<nat>, b: seq<nat>)
      requires Valid() && d < |freq| && Docs(a) && Docs(b)
      ensures Docs(a + b) && FreqSum(a) > 0 && FreqSum(b) > 0
      ensures Mean(d, a + b) == Blend(FreqSum(a), Mean(d, a), FreqSum(b), Mean(d, b))
    {
      hide *;
      MeanIs(d, a);
      MeanIs(d, b);
      DocsOfBoth(a, b);
      MeanIs(d, a + b);
      FreqSumAppend(a, b);
      RowSumAppend(d, a, b);
      BlendOfQuotients(RowSum(d, a), RowSum(d, b), FreqSum(a), FreqSum(b));
    }

    lemma MeanIs(d: nat, ds: seq<nat>)
      requires Valid() && d < |freq| && Docs(ds)
      ensures (forall i :: 0 <= i < |ds| ==> ds[i] < |freq|) && FreqSum(ds) > 0
      ensures Mean(d, ds) == Quotient(RowSum(d, ds), FreqSum(ds))
    {
      FreqSumPositive(ds);
    }

    lemma DocsOfBoth(a: seq<nat>, b: seq<nat>)
      requires Docs(a) && Docs(b)
      ensures Docs(a + b)
    {
    }

    /** The documents in another order have the same mean. */
    lemma MeanOfSwap(d: nat, a: seq<nat>, b: seq<nat>)
      requires Valid() && d < |freq| && Docs(a) && Docs(b)
      ensures Mean(d, a + b) == Mean(d, b + a)
    {
      FreqSumAppend(a, b);
      FreqSumAppend(b, a);
      RowSumAppend(d, a, b);
      RowSumAppend(d, b, a);
    }

    /** log SC of the documents ds within the cluster c. */
    function LogSum(ds: seq<nat>, c: seq<nat>): real
      requires Valid() && Docs(c) && forall i :: 0 <= i < |ds| ==> ds[i] < |freq|
    {
      if |ds| == 0 then 0.0
      else LogSum(ds[..|ds| - 1], c) + log(Mean(ds[|ds| - 1], c))
    }

    /** log SC(c) = the sum over d in c of log P(d|c). */
    function LogSC(c: seq<nat>): real
      requires Valid() && Docs(c)
    {
      LogSum(c, c)
    }

    /** log of SC(a union b) / (SC(a) SC(b)): what hierarchical clustering maximizes. */
    function Gain(a: seq<nat>, b: seq<nat>): real
      requires Valid() && Docs(a) && Docs(b)
    {
      LogSC(a + b) - (LogSC(a) + LogSC(b))
    }

    /** What joining two single documents gains, in the frequencies and the matrix. */
    lemma GainOfTwo(a: nat, b: nat)
      requires Valid() && a < |freq| && b < |freq|
      ensures var f, g := freq[a] as real, freq[b] as real;
              Gain([a], [b]) == log((f * P[a][a] + g * P[a][b]) / (f + g)) + log((f * P[b][a] + g * P[b][b]) / (f + g))
                                - log(P[a][a]) - log(P[b][b])
    {
      MeanOfTwo(a, a, b);
      MeanOfTwo(b, a, b);
      MeanOfOne(a, a);
      MeanOfOne(b, b);
      LogSumOfOne(a, [a]);
      LogSumOfOne(b, [b]);
      LogSumOfOne(a, [a] + [b]);
      LogSumOfOne(b, [a] + [b]);
      LogSumAppend([a], [b], [a] + [b]);
    }

    lemma MeanOfTwo(d: nat, a: nat, b: nat)
      requires Valid() && d < |freq| && a < |freq| && b < |freq|
      ensures var f, g := freq[a] as real, freq[b] as real;
              Mean(d, [a] + [b]) == (f * P[d][a] + g * P[d][b]) / (f + g)
    {
      RowSumAppend(d, [a], [b]);
      FreqSumAppend([a], [b]);
      assert [a][..0] == [] && [b][..0] == [] && RowSum(d, []) == 0.0 && FreqSum([]) == 0;
    }

    lemma LogSumOfOne(d: nat, c: seq<nat>)
      requires Valid() && d < |freq| && Docs(c)
      ensures LogSum([d], c) == log(Mean(d, c))
    {
      assert [d][..0] == [] && LogSum([], c) == 0.0;
    }

    lemma {:induction false} LogSumAppend(a: seq<nat>, b: seq<nat>, c: seq<nat>)
      requires Valid() && Docs(c)
      requires (forall i :: 0 <= i < |a| ==> a[i] < |freq|) && (forall i :: 0 <= i < |b| ==> b[i] < |freq|)
      ensures LogSum(a + b, c) == LogSum(a, c) + LogSum(b, c)
      decreases |b|
    {
      if |b| == 0 {
        assert a + b == a;
      } else {
        assert (a + b)[..|a + b| - 1] == a + b[..|b| - 1];
        LogSumAppend(a, b[..|b| - 1], c);
      }
    }

    lemma {:induction false} LogSumSwap(ds: seq<nat>, a: seq<nat>, b: seq<nat>)
      requires Valid() && Docs(a) && Docs(b) && forall i :: 0 <= i < |ds| ==> ds[i] < |freq|
      ensures LogSum(ds, a + b) == LogSum(ds, b + a)
    {
      if |ds| > 0 {
        LogSumSwap(ds[..|ds| - 1], a, b);
        MeanOfSwap(ds[|ds| - 1], a, b);
      }
    }

    /** The gain of a merger does not depend on the order of the two clusters. */
    lemma GainSymmetric(a: seq<nat>, b: seq<nat>)
      requires Valid() && Docs(a) && Docs(b)
      ensures LogSC(a + b) == LogSC(b + a) && Gain(a, b) == Gain(b, a)
    {
      LogSumAppend(a, b, a + b);
      LogSumSwap(a, a, b);
      LogSumSwap(b, a, b);
      LogSumAppend(b, a, b + a);
    }
  }

  function Quotient(x: real, f: int): real
    requires f > 0
  {
    x / f as real
  }

  /** w1 * u + w2 * v of merge and sc2. */
  function Blend(f: int, u: real, g: int, v: real): real
    requires f > 0 && g > 0
  {
    (f as real / (f + g) as real) * u + (g as real / (f + g) as real) * v
  }

  lemma BlendOfQuotients(x: real, y: real, f: int, g: int)
    requires f > 0 && g > 0
    ensures Quotient(x + y, f + g) == Blend(f, Quotient(x, f), g, Quotient(y, g))
  {
    var fr, gr := f as real, g as real;
    assert (f + g) as real == fr + gr;
    WeightedMean(x, y, fr, gr);
  }

  lemma WeightedMean(x: real, y: real, f: real, g: real)
    requires f > 0.0 && g > 0.0
    ensures (x + y) / (f + g) == (f / (f + g)) * (x / f) + (g / (f + g)) * (y / g)
  {
    Rescale(x, f, f + g);
    Rescale(y, g, f + g);
    var h := f + g;
    assert (x + y) / h == x / h + y / h;
  }

  lemma Rescale(x: real, f: real, h: real)
    requires f > 0.0 && h > 0.0
    ensures (f / h) * (x / f) == x / h
  {
    var q := x / f;
    assert q * f == x;
    var r := f / h;
    assert r * h == f;
    assert (r * q) * h == x;
    assert x / h == ((r * q) * h) / h;
  }
}
