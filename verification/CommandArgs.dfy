/**
  The matching of arguments to tokens in command_args of command.c. Arguments and tokens are
  known by their names, if they have one; which token an argument gets is what is modelled,
  the conversion of its value is not.
*/
module CommandArgs {

  import opened Wrappers

  type Names = seq<Option<string>>

  const UNMATCHED := -1

  // ----- choosing by rank -----

  /** True entries of a mask among its first hi, from lo on */
  function Rank(mask: seq<bool>, lo: nat, hi: nat): (n: nat)
    requires hi <= |mask|
    decreases hi - lo
  {
    if lo >= hi then 0 else (if mask[lo] then 1 else 0) + Rank(mask, lo + 1, hi)
  }

  /** Position of the true entry of rank k from lo on */
  function Nth(mask: seq<bool>, lo: nat, k: nat): (d: int)
    ensures d == UNMATCHED || (lo <= d < |mask| && mask[d])
    decreases |mask| - lo
  {
    if lo >= |mask| then UNMATCHED
    else if mask[lo] then (if k == 0 then lo else Nth(mask, lo + 1, k - 1))
    else Nth(mask, lo + 1, k)
  }

  lemma {:induction false} RankStep(mask: seq<bool>, lo: nat, hi: nat)
    requires lo <= hi < |mask|
    ensures Rank(mask, lo, hi + 1) == Rank(mask, lo, hi) + if mask[hi] then 1 else 0
    decreases hi - lo
  {
    if lo < hi {
      RankStep(mask, lo + 1, hi);
    }
  }

  lemma {:induction false} RankBounds(mask: seq<bool>, lo: nat, mid: nat, hi: nat)
    requires lo <= mid <= hi <= |mask|
    ensures Rank(mask, lo, mid) <= Rank(mask, lo, hi) <= Rank(mask, lo, mid) + (hi - mid)
    decreases hi - mid
  {
    if mid < hi {
      RankStep(mask, lo, mid);
      RankBounds(mask, lo, mid + 1, hi);
    }
  }

  /** The entry of rank k is the true one with k true ones before it */
  lemma {:induction false} NthIsRank(mask: seq<bool>, lo: nat, k: nat, d: nat)
    requires lo <= d < |mask|
    ensures Nth(mask, lo, k) == d <==> mask[d] && Rank(mask, lo, d) == k
    decreases d - lo
  {
    if lo < d {
      if mask[lo] {
        if k > 0 {
          NthIsRank(mask, lo + 1, k - 1, d);
        }
      } else {
        NthIsRank(mask, lo + 1, k, d);
      }
    }
  }

  lemma {:induction false} NthExists(mask: seq<bool>, lo: nat, k: nat)
    requires lo <= |mask|
    ensures Nth(mask, lo, k) != UNMATCHED <==> k < Rank(mask, lo, |mask|)
    decreases |mask| - lo
  {
    if lo < |mask| {
      if mask[lo] {
        if k > 0 {
          NthExists(mask, lo + 1, k - 1);
        }
      } else {
        NthExists(mask, lo + 1, k);
      }
    }
  }

  // ----- what the matching should be -----

  /** Which tokens have a given name; an argument without a name has none of its own */
  function Named(tokens: Names, name: Option<string>): (mask: seq<bool>)
    ensures |mask| == |tokens| && forall d :: 0 <= d < |tokens| ==> mask[d] == (name.Some? && tokens[d] == name)
  {
    seq(|tokens|, d requires 0 <= d < |tokens| => name.Some? && tokens[d] == name)
  }

  /** Arguments before the i-th that have the same name */
  function Earlier(args: Names, i: nat, name: Option<string>): nat
    requires i <= |args|
  {
    if i == 0 then 0 else Earlier(args, i - 1, name) + if args[i - 1] == name then 1 else 0
  }

  /** The k-th argument of a name should get the k-th token of that name */
  function ByName(tokens: Names, first: nat, args: Names, i: nat): (d: int)
    requires i < |args|
    ensures d == UNMATCHED || (first <= d < |tokens| && args[i].Some? && tokens[d] == args[i])
  {
    Nth(Named(tokens, args[i]), first, Earlier(args, i, args[i]))
  }

  /** The tokens no argument asks for by name */
  function Free(tokens: Names, first: nat, args: Names): (mask: seq<bool>)
    ensures |mask| == |tokens|
    ensures forall d :: 0 <= d < |tokens| ==> mask[d] == forall i :: 0 <= i < |args| ==>
            ByName(tokens, first, args, i) != d
  {
    seq(|tokens|, d requires 0 <= d < |tokens| => forall i :: 0 <= i < |args| ==> ByName(tokens, first, args, i) != d)
  }

  /** Arguments before the i-th that found no token by name */
  function EarlierLeft(tokens: Names, first: nat, args: Names, i: nat): nat
    requires i <= |args|
  {
    if i == 0 then 0
    else EarlierLeft(tokens, first, args, i - 1) + if ByName(tokens, first, args, i - 1) == UNMATCHED then 1 else 0
  }

  /** An argument left over gets the free token of its rank among those left over */
  function Matched(tokens: Names, first: nat, args: Names, i: nat): int
    requires i < |args|
  {
    if ByName(tokens, first, args, i) != UNMATCHED then ByName(tokens, first, args, i)
    else Nth(Free(tokens, first, args), first, EarlierLeft(tokens, first, args, i))
  }

  // ----- the two passes -----

  /** First token from first on that is not used and, in the first pass, has the name asked for */
  method FindToken(tokens: Names, first: nat, isUsed: seq<bool>, name: Option<string>, pass: nat) returns (d: int)
    requires |isUsed| == |tokens| && pass <= 1
    ensures d == UNMATCHED || (first <= d < |tokens| && !isUsed[d] && (pass == 0 ==> name.Some? && tokens[d] == name))
    ensures forall e :: first <= e < (if d == UNMATCHED then |tokens| else d) ==>
              isUsed[e] || (pass == 0 && !(name.Some? && tokens[e] == name))
  {
    d := first;
    while d < |tokens|
      invariant first <= d
      invariant forall e :: first <= e < d && e < |tokens| ==>
                isUsed[e] || (pass == 0 && !(name.Some? && tokens[e] == name))
    {
      if !isUsed[d] && (pass == 1 || (name.Some? && tokens[d] == name)) {
        return;
      }
      d := d + 1;
    }
    d := UNMATCHED;
  }

  /** The first entry with at least k true ones before it is the one of rank k */
  lemma FirstOfRank(mask: seq<bool>, lo: nat, k: nat, d: int)
    requires lo <= |mask|
    requires d == UNMATCHED || (lo <= d < |mask| && mask[d] && Rank(mask, lo, d) >= k)
    requires forall e :: lo <= e < (if d == UNMATCHED then |mask| else d) ==> !mask[e] || Rank(mask, lo, e) < k
    ensures d == Nth(mask, lo, k)
  {
    var t := Nth(mask, lo, k);
    if t != UNMATCHED {
      NthIsRank(mask, lo, k, t);
      if d != UNMATCHED && d < t {
        RankStep(mask, lo, d);
        RankBounds(mask, lo, d + 1, t);
      }
    } else if d != UNMATCHED {
      NthExists(mask, lo, k);
      RankStep(mask, lo, d);
      RankBounds(mask, lo, d + 1, |mask|);
    }
  }

  /** Entries of rank below k, once the one of rank k joins them */
  lemma RankGrows(mask: seq<bool>, lo: nat, k: nat, e: nat)
    requires lo <= e < |mask| && mask[e]
    ensures Rank(mask, lo, e) < k + 1 <==> Rank(mask, lo, e) < k || e == Nth(mask, lo, k)
  {
    NthIsRank(mask, lo, k, e);
  }

  lemma {:induction false} EarlierGrows(args: Names, i: nat, j: nat, name: Option<string>)
    requires i <= j <= |args|
    ensures Earlier(args, i, name) <= Earlier(args, j, name)
    ensures i < j && args[i] == name ==> Earlier(args, i, name) < Earlier(args, j, name)
    decreases j - i
  {
    if i < j {
      EarlierGrows(args, i, j - 1, name);
    }
  }

  lemma {:induction false} EarlierReaches(args: Names, i: nat, name: Option<string>, r: nat) returns (j: nat)
    requires i <= |args| && r < Earlier(args, i, name)
    ensures j < i && args[j] == name && Earlier(args, j, name) == r
  {
    if r < Earlier(args, i - 1, name) {
      j := EarlierReaches(args, i - 1, name, r);
    } else {
      j := i - 1;
    }
  }

  lemma {:induction false} EarlierLeftGrows(tokens: Names, first: nat, args: Names, i: nat, j: nat)
    requires i <= j <= |args|
    ensures EarlierLeft(tokens, first, args, i) <= EarlierLeft(tokens, first, args, j)
    ensures i < j && ByName(tokens, first, args, i) == UNMATCHED
            ==> EarlierLeft(tokens, first, args, i) < EarlierLeft(tokens, first, args, j)
    decreases j - i
  {
    if i < j {
      EarlierLeftGrows(tokens, first, args, i, j - 1);
    }
  }

  /** A token is used by the first i arguments of its name */
  predicate UsedByName(tokens: Names, first: nat, args: Names, i: nat, d: nat)
    requires first <= d < |tokens| && i <= |args|
  {
    tokens[d].Some? && Rank(Named(tokens, tokens[d]), first, d) < Earlier(args, i, tokens[d])
  }

  /** The tokens in use after the first pass are those that arguments have got by name */
  lemma UsedIsNotFree(tokens: Names, first: nat, args: Names, d: nat)
    requires first <= d < |tokens|
    ensures UsedByName(tokens, first, args, |args|, d) <==> !Free(tokens, first, args)[d]
  {
    var name, n := tokens[d], |args|;
    var mask := Named(tokens, name);
    if UsedByName(tokens, first, args, n, d) {
      var j := EarlierReaches(args, n, name, Rank(mask, first, d));
      NthIsRank(mask, first, Earlier(args, j, name), d);
      assert ByName(tokens, first, args, j) == d;
    }
    if !Free(tokens, first, args)[d] {
      var j :| 0 <= j < n && ByName(tokens, first, args, j) == d;
      NthIsRank(mask, first, Earlier(args, j, name), d);
      EarlierGrows(args, j, n, name);
    }
  }

  // ----- the state of the passes -----

  ghost predicate FirstPass(tokens: Names, first: nat, args: Names, i: nat, isUsed: seq<bool>, chosen: seq<int>) {
    && i <= |args| == |chosen| && |isUsed| == |tokens|
    && (forall j :: 0 <= j < |args| ==> chosen[j] == if j < i then ByName(tokens, first, args, j) else UNMATCHED)
    && (forall d :: first <= d < |tokens| ==> isUsed[d] == UsedByName(tokens, first, args, i, d))
  }

  ghost predicate SecondPass(tokens: Names, first: nat, args: Names, i: nat, isUsed: seq<bool>, chosen: seq<int>) {
    && i <= |args| == |chosen| && |isUsed| == |tokens|
    && (forall j :: 0 <= j < |args| ==>
          chosen[j] == if j < i then Matched(tokens, first, args, j) else ByName(tokens, first, args, j))
    && (forall d :: first <= d < |tokens| ==>
          isUsed[d] == (!Free(tokens, first, args)[d]
                        || Rank(Free(tokens, first, args), first, d) < EarlierLeft(tokens, first, args, i)))
  }

  function Marked(isUsed: seq<bool>, d: int): seq<bool>
    requires d < |isUsed|
  {
    if d < 0 then isUsed else isUsed[d := true]
  }

  lemma FirstPassStep(tokens: Names, first: nat, args: Names, i: nat, isUsed: seq<bool>, chosen: seq<int>, d: int)
    requires first <= |tokens| && i < |args| && FirstPass(tokens, first, args, i, isUsed, chosen)
    requires d == UNMATCHED || (first <= d < |tokens| && !isUsed[d] && args[i].Some? && tokens[d] == args[i])
    requires forall e :: first <= e < (if d == UNMATCHED then |tokens| else d) ==>
               isUsed[e] || !(args[i].Some? && tokens[e] == args[i])
    ensures d == ByName(tokens, first, args, i)
    ensures FirstPass(tokens, first, args, i + 1, Marked(isUsed, d), chosen[i := d])
  {
    var name := args[i];
    var mask, k := Named(tokens, name), Earlier(args, i, name);
    if name.Some? {
      FirstOfRank(mask, first, k, d);
    }
    forall e | first <= e < |tokens|
      ensures Marked(isUsed, d)[e] == UsedByName(tokens, first, args, i + 1, e)
    {
      if tokens[e] == name && name.Some? {
        RankGrows(mask, first, k, e);
      }
    }
  }

  lemma PassesMeet(tokens: Names, first: nat, args: Names, isUsed: seq<bool>, chosen: seq<int>)
    requires FirstPass(tokens, first, args, |args|, isUsed, chosen)
    ensures SecondPass(tokens, first, args, 0, isUsed, chosen)
  {
    forall d | first <= d < |tokens|
      ensures isUsed[d] == !Free(tokens, first, args)[d]
    {
      UsedIsNotFree(tokens, first, args, d);
    }
  }

  lemma SecondPassStep(tokens: Names, first: nat, args: Names, i: nat, isUsed: seq<bool>, chosen: seq<int>, d: int)
    requires first <= |tokens| && i < |args| && SecondPass(tokens, first, args, i, isUsed, chosen)
    requires chosen[i] == UNMATCHED
    requires d == UNMATCHED || (first <= d < |tokens| && !isUsed[d])
    requires forall e :: first <= e < (if d == UNMATCHED then |tokens| else d) ==> isUsed[e]
    ensures SecondPass(tokens, first, args, i + 1, Marked(isUsed, d), chosen[i := d])
  {
    var mask, k := Free(tokens, first, args), EarlierLeft(tokens, first, args, i);
    FirstOfRank(mask, first, k, d);
    forall e | first <= e < |tokens|
      ensures Marked(isUsed, d)[e] == (!mask[e] || Rank(mask, first, e) < k + 1)
    {
      if mask[e] {
        RankGrows(mask, first, k, e);
      }
    }
  }

  lemma SecondPassSkip(tokens: Names, first: nat, args: Names, i: nat, isUsed: seq<bool>, chosen: seq<int>)
    requires i < |args| && SecondPass(tokens, first, args, i, isUsed, chosen) && chosen[i] != UNMATCHED
    ensures SecondPass(tokens, first, args, i + 1, isUsed, chosen)
  {
  }

  // ----- how many are matched -----

  function CountMatched(chosen: seq<int>): nat {
    if chosen == [] then 0 else (if chosen[0] != UNMATCHED then 1 else 0) + CountMatched(chosen[1..])
  }

  lemma {:induction false} CountUpdate(chosen: seq<int>, i: nat, d: int)
    requires i < |chosen| && chosen[i] == UNMATCHED
    ensures CountMatched(chosen[i := d]) == CountMatched(chosen) + if d != UNMATCHED then 1 else 0
  {
    if i > 0 {
      assert chosen[i := d][1..] == chosen[1..][i - 1 := d];
      CountUpdate(chosen[1..], i - 1, d);
    } else {
      assert chosen[i := d][1..] == chosen[1..];
    }
  }

  lemma {:induction false} CountBounds(chosen: seq<int>)
    ensures CountMatched(chosen) <= |chosen|
    ensures (forall i :: 0 <= i < |chosen| ==> chosen[i] != UNMATCHED) ==> CountMatched(chosen) == |chosen|
    ensures (forall i :: 0 <= i < |chosen| ==> chosen[i] == UNMATCHED) ==> CountMatched(chosen) == 0
  {
    if chosen != [] {
      CountBounds(chosen[1..]);
    }
  }

  lemma {:induction false} RankUpdate(mask: seq<bool>, lo: nat, d: nat)
    requires lo <= d < |mask| && !mask[d]
    ensures Rank(mask[d := true], lo, |mask|) == Rank(mask, lo, |mask|) + 1
    decreases d - lo
  {
    if lo < d {
      RankUpdate(mask, lo + 1, d);
    } else {
      RankIgnores(mask, lo + 1, d);
    }
  }

  lemma {:induction false} RankIgnores(mask: seq<bool>, lo: nat, d: nat)
    requires d < lo <= |mask|
    ensures Rank(mask[d := true], lo, |mask|) == Rank(mask, lo, |mask|)
    decreases |mask| - lo
  {
    if lo < |mask| {
      RankIgnores(mask, lo + 1, d);
    }
  }

  lemma {:induction false} RankOfUniform(mask: seq<bool>, lo: nat)
    requires lo <= |mask|
    ensures (forall d :: lo <= d < |mask| ==> !mask[d]) ==> Rank(mask, lo, |mask|) == 0
    ensures (forall d :: lo <= d < |mask| ==> mask[d]) ==> Rank(mask, lo, |mask|) == |mask| - lo
    decreases |mask| - lo
  {
    if lo < |mask| {
      RankOfUniform(mask, lo + 1);
    }
  }

  /** At the end of both passes either every argument is matched or every token is in use */
  lemma AllOrAll(tokens: Names, first: nat, args: Names, isUsed: seq<bool>, chosen: seq<int>)
    requires first <= |tokens| && SecondPass(tokens, first, args, |args|, isUsed, chosen)
    ensures (forall i :: 0 <= i < |args| ==> chosen[i] != UNMATCHED)
            || (forall d :: first <= d < |tokens| ==> isUsed[d])
  {
    if i :| 0 <= i < |args| && chosen[i] == UNMATCHED {
      var mask := Free(tokens, first, args);
      NthExists(mask, first, EarlierLeft(tokens, first, args, i));
      EarlierLeftGrows(tokens, first, args, i, |args|);
      forall d | first <= d < |tokens|
        ensures isUsed[d]
      {
        RankBounds(mask, first, d, |tokens|);
        if mask[d] {
          RankStep(mask, first, d);
          RankBounds(mask, first, d + 1, |tokens|);
        }
      }
    }
  }

  /** pass 0: arguments get tokens of their name */
  method MatchByName(tokens: Names, first: nat, args: Names) returns (isUsed: seq<bool>, chosen: seq<int>)
    requires first <= |tokens|
    ensures FirstPass(tokens, first, args, |args|, isUsed, chosen)
    ensures Rank(isUsed, first, |tokens|) == CountMatched(chosen)
  {
    isUsed := seq(|tokens|, _ => false);
    chosen := seq(|args|, _ => UNMATCHED);
    RankOfUniform(isUsed, first);
    CountBounds(chosen);
    var nargs := 0;
    while nargs < |args|
      invariant 0 <= nargs <= |args| && FirstPass(tokens, first, args, nargs, isUsed, chosen)
      invariant Rank(isUsed, first, |tokens|) == CountMatched(chosen)
    {
      var d := FindToken(tokens, first, isUsed, args[nargs], 0);
      FirstPassStep(tokens, first, args, nargs, isUsed, chosen, d);
      isUsed, chosen := Take(first, isUsed, chosen, nargs, d);
      nargs := nargs + 1;
    }
  }

  /** The flags of a match, and the token noted; nothing when no token was found */
  method Take(ghost first: nat, isUsed: seq<bool>, chosen: seq<int>, i: nat, d: int)
    returns (isUsed': seq<bool>, chosen': seq<int>)
    requires i < |chosen| && chosen[i] == UNMATCHED
    requires d == UNMATCHED || (first <= d < |isUsed| && !isUsed[d])
    requires first <= |isUsed|
    ensures isUsed' == Marked(isUsed, d) && chosen' == chosen[i := d]
    ensures Rank(isUsed', first, |isUsed|) - Rank(isUsed, first, |isUsed|)
            == CountMatched(chosen') - CountMatched(chosen)
  {
    CountUpdate(chosen, i, d);
    isUsed', chosen' := isUsed, chosen[i := d];
    if d != UNMATCHED {
      RankUpdate(isUsed, first, d);
      isUsed' := isUsed[d := true];
    }
  }

  /** command_args: chosen[i] is the token whose value the i-th argument gets; this is pass 1, after pass 0 */
  method MatchArgs(tokens: Names, first: nat, args: Names) returns (chosen: seq<int>)
    requires first <= |tokens|
    ensures |chosen| == |args|
    ensures forall i :: 0 <= i < |args| ==> chosen[i] == Matched(tokens, first, args, i)
    ensures CountMatched(chosen) == if |args| <= |tokens| - first then |args| else |tokens| - first
  {
    var isUsed;
    isUsed, chosen := MatchByName(tokens, first, args);
    PassesMeet(tokens, first, args, isUsed, chosen);
    var nargs := 0;
    while nargs < |args|
      invariant 0 <= nargs <= |args| && SecondPass(tokens, first, args, nargs, isUsed, chosen)
      invariant Rank(isUsed, first, |tokens|) == CountMatched(chosen)
    {
      if chosen[nargs] == UNMATCHED {
        var d := FindToken(tokens, first, isUsed, args[nargs], 1);
        SecondPassStep(tokens, first, args, nargs, isUsed, chosen, d);
        isUsed, chosen := Take(first, isUsed, chosen, nargs, d);
      } else {
        SecondPassSkip(tokens, first, args, nargs, isUsed, chosen);
      }
      nargs := nargs + 1;
    }
    FullMatching(tokens, first, args, isUsed, chosen);
  }

  lemma FullMatching(tokens: Names, first: nat, args: Names, isUsed: seq<bool>, chosen: seq<int>)
    requires first <= |tokens| && SecondPass(tokens, first, args, |args|, isUsed, chosen)
    requires Rank(isUsed, first, |tokens|) == CountMatched(chosen)
    ensures CountMatched(chosen) == if |args| <= |tokens| - first then |args| else |tokens| - first
  {
    AllOrAll(tokens, first, args, isUsed, chosen);
    CountBounds(chosen);
    RankOfUniform(isUsed, first);
    RankBounds(isUsed, first, first, |tokens|);
  }

  // ----- main results -----

  /** No token goes to two arguments */
  lemma MatchingIsOneToOne(tokens: Names, first: nat, args: Names, i: nat, j: nat)
    requires first <= |tokens| && i < j < |args| && Matched(tokens, first, args, i) != UNMATCHED
    ensures Matched(tokens, first, args, i) != Matched(tokens, first, args, j)
  {
    var d, e := Matched(tokens, first, args, i), Matched(tokens, first, args, j);
    var byI, byJ := ByName(tokens, first, args, i), ByName(tokens, first, args, j);
    if d == e {
      if byI != UNMATCHED && byJ != UNMATCHED {
        EarlierGrows(args, i, j, args[i]);
        NthIsRank(Named(tokens, args[i]), first, Earlier(args, i, args[i]), d);
        NthIsRank(Named(tokens, args[i]), first, Earlier(args, j, args[i]), d);
      } else if byI == UNMATCHED && byJ == UNMATCHED {
        EarlierLeftGrows(tokens, first, args, i, j);
        NthIsRank(Free(tokens, first, args), first, EarlierLeft(tokens, first, args, i), d);
        NthIsRank(Free(tokens, first, args), first, EarlierLeft(tokens, first, args, j), d);
      }
    }
  }

  /** Arguments left over by name get their tokens in order: the earlier argument the earlier token */
  lemma LeftoversInOrder(tokens: Names, first: nat, args: Names, i: nat, j: nat)
    requires first <= |tokens| && i < j < |args|
    requires ByName(tokens, first, args, i) == UNMATCHED && ByName(tokens, first, args, j) == UNMATCHED
    requires Matched(tokens, first, args, j) != UNMATCHED
    ensures UNMATCHED != Matched(tokens, first, args, i) < Matched(tokens, first, args, j)
  {
    var mask := Free(tokens, first, args);
    var k, l := EarlierLeft(tokens, first, args, i), EarlierLeft(tokens, first, args, j);
    EarlierLeftGrows(tokens, first, args, i, j);
    NthExists(mask, first, k);
    NthExists(mask, first, l);
    var d, e := Nth(mask, first, k), Nth(mask, first, l);
    NthIsRank(mask, first, k, d);
    NthIsRank(mask, first, l, e);
    if e < d {
      RankBounds(mask, first, e, d);
    }
  }
}
