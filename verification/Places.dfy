// Counting where the threads of a monitor stand.
module Places {
  import opened Prelude

  type Tid = nat

  function Where<P(==)>(at: map<Tid, P>, p: P): set<Tid> {
    set t | t in at && at[t] == p
  }

  function N<P(==)>(at: map<Tid, P>, p: P): nat {
    |Where(at, p)|
  }

  function One(b: bool): int {
    if b then 1 else 0
  }

  predicate Is<P(==)>(at: map<Tid, P>, t: Tid, p: P) {
    t in at && at[t] == p
  }

  lemma DropCount<P>(at: map<Tid, P>, t: Tid, q: P)
    ensures N(at - {t}, q) == N(at, q) - One(Is(at, t, q))
  {
    var others := Where(at - {t}, q);
    if Is(at, t, q) {
      assert Where(at, q) == others + {t};
    } else {
      assert Where(at, q) == others;
    }
  }

  lemma PutCount<P>(at: map<Tid, P>, t: Tid, p: P, q: P)
    ensures N(at[t := p], q) == N(at, q) - One(Is(at, t, q)) + One(p == q)
  {
    DropCount(at, t, q);
    DropCount(at[t := p], t, q);
    assert at[t := p] - {t} == at - {t};
  }

  // notify_all: every sleeper at p goes to q.
  function MoveAll<P(==)>(at: map<Tid, P>, p: P, q: P): map<Tid, P> {
    map t | t in at :: if at[t] == p then q else at[t]
  }

  lemma MoveAllCount<P>(at: map<Tid, P>, p: P, q: P, r: P)
    requires p != q
    ensures N(MoveAll(at, p, q), r) ==
            if r == p then 0 else if r == q then N(at, q) + N(at, p) else N(at, r)
  {
    if r == p {
      assert Where(MoveAll(at, p, q), p) == {};
    } else if r != q {
      assert Where(MoveAll(at, p, q), r) == Where(at, r);
    } else {
      assert Where(MoveAll(at, p, q), q) == Where(at, q) + Where(at, p);
      assert Where(at, q) !! Where(at, p);
    }
  }

  // notify_one wakes some sleeper at p if there is one; `w` is the one it wakes.
  predicate Picks<P(==)>(at: map<Tid, P>, p: P, w: Option<Tid>) {
    if N(at, p) == 0 then w == None else w.Some? && Is(at, w.value, p)
  }

  function Wake<P>(at: map<Tid, P>, w: Option<Tid>, q: P): map<Tid, P> {
    if w.Some? then at[w.value := q] else at
  }

  lemma WakeCount<P>(at: map<Tid, P>, w: Option<Tid>, p: P, q: P, r: P)
    requires p != q && Picks(at, p, w)
    ensures N(Wake(at, w, q), r) == N(at, r) + One(w.Some? && r == q) - One(w.Some? && r == p)
  {
    if w.Some? { PutCount(at, w.value, q, r); }
  }

  lemma WakeAfterDropCount<P>(at: map<Tid, P>, t: Tid, w: Option<Tid>, p: P, q: P, r: P)
    requires t in at && at[t] != p && p != q && Picks(at, p, w)
    ensures N(Wake(at - {t}, w, q), r) ==
            N(at, r) - One(at[t] == r) + One(w.Some? && r == q) - One(w.Some? && r == p)
  {
    DropCount(at, t, p);
    DropCount(at, t, r);
    WakeCount(at - {t}, w, p, q, r);
  }

  // A place that counts somebody has somebody in it.
  lemma SomebodyAt<P>(at: map<Tid, P>, p: P)
    ensures N(at, p) > 0 <==> exists t :: Is(at, t, p)
  {
    if N(at, p) > 0 {
      var t :| t in Where(at, p);
      assert Is(at, t, p);
    }
    if t :| Is(at, t, p) {
      assert t in Where(at, p);
    }
  }
}
