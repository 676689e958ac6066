/** Counting threads by where they are in their code. */
module Threads {
  type Tid = nat

  /** The threads whose program counter satisfies `at`. */
  ghost function Those<P(!new)>(pc: map<Tid, P>, at: P -> bool): set<Tid> {
    set t | t in pc && at(pc[t])
  }

  ghost function Num<P(!new)>(pc: map<Tid, P>, at: P -> bool): nat {
    |Those(pc, at)|
  }

  /** One thread moves: a count changes by that thread alone. */
  lemma OneMoves<P(!new)>(pc: map<Tid, P>, t: Tid, p: P, at: P -> bool)
    requires t in pc
    ensures Num(pc[t := p], at) + (if at(pc[t]) then 1 else 0)
         == Num(pc, at) + (if at(p) then 1 else 0)
  {
    var before, after := Those(pc, at), Those(pc[t := p], at);
    assert t in before <==> at(pc[t]);
    assert t in after <==> at(p);
    forall u | u != t
      ensures u in before <==> u in after
    {
    }
    hide Those;
    assert before - {t} == after - {t};
    SizeWithout(before, t);
    SizeWithout(after, t);
  }

  lemma SizeWithout(s: set<Tid>, t: Tid)
    ensures |s| == |s - {t}| + if t in s then 1 else 0
  {
    if t in s {
      assert s == (s - {t}) + {t};
    } else {
      assert s == s - {t};
    }
  }

  /** A thread that is there is counted. */
  lemma OneIsThere<P(!new)>(pc: map<Tid, P>, t: Tid, at: P -> bool)
    requires t in pc && at(pc[t])
    ensures Num(pc, at) >= 1
  {
    assert t in Those(pc, at);
  }

  /** Two places no thread can be in at once hold at most one thread. */
  lemma AtMostOne<P(!new)>(pc: map<Tid, P>, at: P -> bool)
    requires forall t, u :: t in pc && u in pc && at(pc[t]) && at(pc[u]) ==> t == u
    ensures Num(pc, at) <= 1
  {
    var s := Those(pc, at);
    if s != {} {
      var t :| t in s;
      assert s == {t};
    }
  }

  lemma NoneThere<P(!new)>(pc: map<Tid, P>, at: P -> bool)
    requires forall t :: t in pc ==> !at(pc[t])
    ensures Num(pc, at) == 0
  {
    assert Those(pc, at) == {};
  }

  lemma NoMoreThan<P(!new)>(pc: map<Tid, P>, at: P -> bool, bound: set<Tid>)
    requires forall t :: t in pc && at(pc[t]) ==> t in bound
    ensures Num(pc, at) <= |bound|
  {
    SubsetSize(Those(pc, at), bound);
  }

  lemma {:induction false} SubsetSize(a: set<Tid>, b: set<Tid>)
    requires a <= b
    ensures |a| <= |b|
    decreases |a|
  {
    if a == {} {
    } else {
      var t :| t in a;
      SubsetSize(a - {t}, b - {t});
    }
  }
}
