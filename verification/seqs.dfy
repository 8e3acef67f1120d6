/** Concatenations regrouped to the right, one piece at a time. Proofs about
    text built from many pieces call these instead of leaving the solver to
    rediscover associativity. */
module Seqs {
  lemma Regroup3<T>(a: seq<T>, b: seq<T>, rest: seq<T>)
    ensures (a + b) + rest == a + (b + rest)
  {
  }

  lemma Nest3<T>(a: seq<T>, b: seq<T>, c: seq<T>, rest: seq<T>)
    ensures a + b + c + rest == a + (b + (c + rest))
  {
    Regroup3(a + b, c, rest);
    Regroup3(a, b, c + rest);
  }

  lemma Nest4<T>(a: seq<T>, b: seq<T>, c: seq<T>, d: seq<T>, rest: seq<T>)
    ensures a + b + c + d + rest == a + (b + (c + (d + rest)))
  {
    Regroup3(a + b + c, d, rest);
    Nest3(a, b, c, d + rest);
  }

  lemma Nest5<T>(a: seq<T>, b: seq<T>, c: seq<T>, d: seq<T>, e: seq<T>, rest: seq<T>)
    ensures a + b + c + d + e + rest == a + (b + (c + (d + (e + rest))))
  {
    Regroup3(a + b + c + d, e, rest);
    Nest4(a, b, c, d, e + rest);
  }

  lemma Nest6<T>(a: seq<T>, b: seq<T>, c: seq<T>, d: seq<T>, e: seq<T>, f: seq<T>, rest: seq<T>)
    ensures a + b + c + d + e + f + rest == a + (b + (c + (d + (e + (f + rest)))))
  {
    Regroup3(a + b + c + d + e, f, rest);
    Nest5(a, b, c, d, e, f + rest);
  }

  lemma Nest7<T>(a: seq<T>, b: seq<T>, c: seq<T>, d: seq<T>, e: seq<T>, f: seq<T>, g: seq<T>, rest: seq<T>)
    ensures a + b + c + d + e + f + g + rest == a + (b + (c + (d + (e + (f + (g + rest))))))
  {
    Regroup3(a + b + c + d + e + f, g, rest);
    Nest6(a, b, c, d, e, f, g + rest);
  }

  lemma Nest8<T>(a: seq<T>, b: seq<T>, c: seq<T>, d: seq<T>, e: seq<T>, f: seq<T>, g: seq<T>, h: seq<T>, rest: seq<T>)
    ensures a + b + c + d + e + f + g + h + rest == a + (b + (c + (d + (e + (f + (g + (h + rest)))))))
  {
    Regroup3(a + b + c + d + e + f + g, h, rest);
    Nest7(a, b, c, d, e, f, g, h + rest);
  }

  /** A sequence that agrees with `p` on its first `|p|` places and with `q`
      on the rest is `p + q`. */
  lemma PointwiseAppend<T>(whole: seq<T>, p: seq<T>, q: seq<T>)
    requires |whole| == |p| + |q|
    requires forall i :: 0 <= i < |p| ==> whole[i] == p[i]
    requires forall i :: |p| <= i < |whole| ==> whole[i] == q[i - |p|]
    ensures whole == p + q
  {
  }

  lemma DropPrefix<T>(a: seq<T>, b: seq<T>)
    ensures (a + b)[..|a|] == a && (a + b)[|a|..] == b
  {
  }
}
