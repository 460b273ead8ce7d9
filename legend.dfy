/**
  generate_handles: one legend patch per label, the face colours taken from
  the colour list in turn. The three scripts carry the same function.
 */
module Legend {

  /**
    A legend patch, mpatches.Rectangle((0, 0), 1, 1, facecolor, edgecolor,
    alpha), reduced to the three values the caller chooses.
   */
  datatype Handle<C, A> = Handle(face: C, edge: C, alpha: A)

  /** The defaults of generate_handles' edge and alpha parameters. */
  const DefaultEdge: string := "k"
  const DefaultAlpha: int := 1

  /** The handles list after the loop has run for the first n labels. */
  function HandlesUpTo<C, A>(n: nat, colors: seq<C>, edge: C, alpha: A): seq<Handle<C, A>>
    requires n > 0 ==> |colors| > 0
  {
    if n == 0 then []
    else HandlesUpTo(n - 1, colors, edge, alpha) + [Handle(colors[(n - 1) % |colors|], edge, alpha)]
  }

  /**
    generate_handles(labels, colors, edge, alpha). With labels but no colours
    the source fails on i % len(colors), hence the precondition; with no
    labels the loop does not run and any colour list will do.
   */
  method GenerateHandles<L, C, A>(labels: seq<L>, colors: seq<C>, edge: C, alpha: A)
    returns (handles: seq<Handle<C, A>>)
    requires |labels| > 0 ==> |colors| > 0
    ensures handles == HandlesUpTo(|labels|, colors, edge, alpha)
    ensures |handles| == |labels|
    ensures forall i :: 0 <= i < |handles| ==> handles[i] == Handle(colors[i % |colors|], edge, alpha)
  {
    var lc := |colors|;
    handles := [];
    for i := 0 to |labels|
      invariant handles == HandlesUpTo(i, colors, edge, alpha)
    {
      handles := handles + [Handle(colors[i % lc], edge, alpha)];
    }
    HandlesCount(|labels|, colors, edge, alpha);
    forall i | 0 <= i < |handles|
      ensures handles[i] == Handle(colors[i % |colors|], edge, alpha)
    {
      HandleAt(|labels|, colors, edge, alpha, i);
    }
  }

  /** One handle per label. */
  lemma {:induction false} HandlesCount<C, A>(n: nat, colors: seq<C>, edge: C, alpha: A)
    requires n > 0 ==> |colors| > 0
    ensures |HandlesUpTo(n, colors, edge, alpha)| == n
  {
    if n > 0 {
      HandlesCount(n - 1, colors, edge, alpha);
    }
  }

  /** Handle i has face colour colors[i mod len(colors)] and the common edge colour and alpha. */
  lemma {:induction false} HandleAt<C, A>(n: nat, colors: seq<C>, edge: C, alpha: A, i: nat)
    requires n > 0 ==> |colors| > 0
    requires i < n
    ensures |HandlesUpTo(n, colors, edge, alpha)| == n
    ensures HandlesUpTo(n, colors, edge, alpha)[i] == Handle(colors[i % |colors|], edge, alpha)
  {
    HandlesCount(n, colors, edge, alpha);
    if i < n - 1 {
      HandleAt(n - 1, colors, edge, alpha, i);
    }
  }

  /** With fewer colours than labels the colours repeat, every len(colors) handles. */
  lemma ColoursRepeat<C, A>(n: nat, colors: seq<C>, edge: C, alpha: A, i: nat)
    requires |colors| > 0
    requires i + |colors| < n
    ensures |HandlesUpTo(n, colors, edge, alpha)| == n
    ensures HandlesUpTo(n, colors, edge, alpha)[i].face == HandlesUpTo(n, colors, edge, alpha)[i + |colors|].face
  {
    HandleAt(n, colors, edge, alpha, i);
    HandleAt(n, colors, edge, alpha, i + |colors|);
    ModPeriod(i, |colors|);
  }

  /** (i + k) mod k == i mod k, from the uniqueness of quotient and remainder. */
  lemma ModPeriod(i: nat, k: nat)
    requires k > 0
    ensures (i + k) % k == i % k
  {
    var q, r := i / k, i % k;
    var d, m := (i + k) / k, (i + k) % k;
    assert i == q * k + r;
    assert i + k == d * k + m;
    assert (d - q - 1) * k == r - m;
    ZeroMultiple(d - q - 1, k);
  }

  lemma {:induction false} MulAtLeast(x: int, k: int)
    requires x >= 1 && k > 0
    ensures x * k >= k
  {
    if x > 1 {
      MulAtLeast(x - 1, k);
      assert x * k == (x - 1) * k + k;
    }
  }

  lemma ZeroMultiple(x: int, k: int)
    requires k > 0 && -k < x * k < k
    ensures x == 0
  {
    if x >= 1 {
      MulAtLeast(x, k);
    } else if x <= -1 {
      MulAtLeast(-x, k);
    }
  }

  /** The counties legend, generate_handles([''], ['none'], edge='k'): one patch, no fill, black outline, opaque. */
  lemma CountyLegend()
    ensures HandlesUpTo(1, ["none"], "k", DefaultAlpha) == [Handle("none", DefaultEdge, 1)]
  {
  }
}
