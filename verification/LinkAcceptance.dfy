/** When the trigger lets a link or a correction in, said of what is committed and what each transaction has written. */
module LinkAcceptance {
  import opened LinkProtocol

  /** The link is committed, or among the transaction's own writes. */
  ghost predicate Sees(s: System, t: nat, l: Link)
    requires t in s.txs
  {
    l in s.store.links || Links(l) in s.txs[t].log
  }

  /** So is a correction that supersedes it. */
  ghost predicate SeesSuperseded(s: System, t: nat, l: Link)
    requires t in s.txs
  {
    exists c: Correction :: c.superseded == l.id && (c in s.store.corrections || Corrects(c) in s.txs[t].log)
  }

  lemma VisibleMeans(s: System, t: nat, p: Pair)
    requires t in s.txs
    ensures HasCurrent(Visible(s.store, s.txs[t].log), p) <==>
              exists l :: Sees(s, t, l) && l.pair == p && !SeesSuperseded(s, t, l)
  {
    var v := Visible(s.store, s.txs[t].log);
    forall l
      ensures l in v.links <==> Sees(s, t, l)
      ensures IsCurrent(v, l) <==> Sees(s, t, l) && !SeesSuperseded(s, t, l)
    {
      LinkVisible(s.store, s.txs[t].log, l);
      CurrentVisible(s, t, l);
    }
  }

  lemma LinkVisible(store: Store, log: seq<Event>, l: Link)
    ensures l in Visible(store, log).links <==> l in store.links || Links(l) in log
  {
    if Links(l) in log {
      assert Links(l).link == l;
    }
  }

  lemma CorrectionVisible(store: Store, log: seq<Event>, c: Correction)
    ensures c in Visible(store, log).corrections <==> c in store.corrections || Corrects(c) in log
  {
    if Corrects(c) in log {
      assert Corrects(c).correction == c;
    }
  }

  lemma CurrentVisible(s: System, t: nat, l: Link)
    requires t in s.txs
    ensures IsCurrent(Visible(s.store, s.txs[t].log), l) <==> Sees(s, t, l) && !SeesSuperseded(s, t, l)
  {
    var v := Visible(s.store, s.txs[t].log);
    LinkVisible(s.store, s.txs[t].log, l);
    forall c
      ensures c in v.corrections <==> c in s.store.corrections || Corrects(c) in s.txs[t].log
    {
      CorrectionVisible(s.store, s.txs[t].log, c);
    }
  }

  /** Another transaction holds a lock of the same hash. */
  ghost predicate Contended(hash: Pair -> int, s: System, t: nat, p: Pair) {
    exists o, q :: o in s.txs && o != t && Locks(q) in s.txs[o].log && hash(q) == hash(p)
  }

  lemma FreeMeans(hash: Pair -> int, s: System, t: nat, p: Pair)
    ensures LockFree(hash, s, t, p) <==> !Contended(hash, s, t, p)
  {
    if !LockFree(hash, s, t, p) {
      var o :| o in s.txs && o != t && Holds(hash, s.txs[o], p);
      var e :| e in s.txs[o].log && e.Locks? && hash(e.pair) == hash(p);
      assert Locks(e.pair) in s.txs[o].log;
    }
    if o, q :| o in s.txs && o != t && Locks(q) in s.txs[o].log && hash(q) == hash(p) {
      assert Holds(hash, s.txs[o], p);
    }
  }

  /** While the lock is held elsewhere an insert waits. */
  lemma InsertWaits(hash: Pair -> int, s: System, t: nat, l: Link)
    requires t in s.txs && Contended(hash, s, t, l.pair)
    ensures Apply(hash, s, TakeLock(t, l)) == s
  {
    FreeMeans(hash, s, t, l.pair);
  }

  lemma RunNext(hash: Pair -> int, s: System, actions: seq<Action>, a: Action)
    ensures Run(hash, s, actions + [a]) == Apply(hash, Run(hash, s, actions), a)
  {
    hide Apply;
    assert (actions + [a])[..|actions|] == actions;
  }

  lemma RunThree(hash: Pair -> int, s: System, a: Action, b: Action, c: Action)
    ensures Run(hash, s, [a, b, c]) == Apply(hash, Apply(hash, Apply(hash, s, a), b), c)
  {
    hide Apply;
    RunNext(hash, s, [], a);
    RunNext(hash, s, [a], b);
    RunNext(hash, s, [a, b], c);
    assert [] + [a] == [a] && [a] + [b] == [a, b] && [a, b] + [c] == [a, b, c];
  }

  /** With the lock free and its id new, an insert enters the link exactly when the transaction sees no current link of
      that pair; otherwise it fails.  Nothing is committed by it and no other transaction touched. */
  lemma InsertedExactly(hash: Pair -> int, s: System, t: nat, l: Link)
    requires t in s.txs && s.txs[t].statement.Idle? && !Contended(hash, s, t, l.pair) && !IdUsed(s, l.id)
    ensures var next := Run(hash, s, [TakeLock(t, l), Check(t), Insert(t)]);
            && next.store == s.store && next.txs.Keys == s.txs.Keys
            && (forall o :: o in s.txs && o != t ==> next.txs[o] == s.txs[o])
            && if exists k :: Sees(s, t, k) && k.pair == l.pair && !SeesSuperseded(s, t, k)
               then next.txs[t] == Tx(s.txs[t].log + [Locks(l.pair)], Failed)
               else next.txs[t] == Tx(s.txs[t].log + [Locks(l.pair)] + [Links(l)], Idle)
  {
    hide IdUsed, Contended, SeesSuperseded, HasCurrent, Sees;
    RunThree(hash, s, TakeLock(t, l), Check(t), Insert(t));
    FreeMeans(hash, s, t, l.pair);
    VisibleMeans(s, t, l.pair);
    var locked := Apply(hash, s, TakeLock(t, l));
    assert locked == With(s, t, Tx(s.txs[t].log + [Locks(l.pair)], Locked(l)));
    LockingHides(s.store, s.txs[t].log, l.pair);
    UnusedAfterLocking(s, t, l);
    var checked := Apply(hash, locked, Check(t));
    if !HasCurrent(Visible(s.store, s.txs[t].log), l.pair) {
      assert checked == With(s, t, Tx(s.txs[t].log + [Locks(l.pair)], Checked(l)));
    }
  }

  lemma LockingHides(store: Store, log: seq<Event>, p: Pair)
    ensures Visible(store, log + [Locks(p)]) == Visible(store, log)
  {
  }

  lemma UnusedAfterLocking(s: System, t: nat, l: Link)
    requires t in s.txs && !IdUsed(s, l.id)
    ensures !IdUsed(With(s, t, Tx(s.txs[t].log + [Locks(l.pair)], Checked(l))), l.id)
  {
  }

  /** A correction is entered exactly when no correction of its link is committed or under way anywhere, and the
      transaction sees both links it names. */
  lemma CorrectedExactly(hash: Pair -> int, s: System, t: nat, c: Correction)
    requires t in s.txs && s.txs[t].statement.Idle?
    ensures var next := Apply(hash, s, Correct(t, c));
            var free := (forall d :: d in s.store.corrections ==> d.superseded != c.superseded)
                        && forall o, d :: o in s.txs && Corrects(d) in s.txs[o].log ==> d.superseded != c.superseded;
            var known := (exists l :: Sees(s, t, l) && l.id == c.superseded)
                         && (c.replacement.Some? ==> exists l :: Sees(s, t, l) && l.id == c.replacement.value);
            && (!free ==> next == s)
            && (free && known ==> next == With(s, t, Tx(s.txs[t].log + [Corrects(c)], Idle)))
            && (free && !known ==> next == With(s, t, Tx(s.txs[t].log, Failed)))
  {
    SupersedingMeans(s, c.superseded);
    ExistsMeans(s, t, c.superseded);
    if c.replacement.Some? {
      ExistsMeans(s, t, c.replacement.value);
    }
  }

  lemma SupersedingMeans(s: System, id: nat)
    ensures !Superseding(s, id) <==>
              && (forall d :: d in s.store.corrections ==> d.superseded != id)
              && forall o, d :: o in s.txs && Corrects(d) in s.txs[o].log ==> d.superseded != id
  {
    if o, e :| o in s.txs && e in s.txs[o].log && e.Corrects? && e.correction.superseded == id {
      assert Corrects(e.correction) in s.txs[o].log;
    }
    if o, d :| o in s.txs && Corrects(d) in s.txs[o].log && d.superseded == id {
      assert Corrects(d).Corrects?;
    }
  }

  lemma ExistsMeans(s: System, t: nat, id: nat)
    requires t in s.txs
    ensures Exists(Visible(s.store, s.txs[t].log), id) <==> exists l :: Sees(s, t, l) && l.id == id
  {
    forall l
      ensures l in Visible(s.store, s.txs[t].log).links <==> Sees(s, t, l)
    {
      LinkVisible(s.store, s.txs[t].log, l);
    }
  }

  /** Undoing cuts the transaction's own writes back to the savepoint, locks taken since included, and nothing else. */
  lemma UndoneExactly(hash: Pair -> int, s: System, t: nat, n: nat)
    requires t in s.txs && n <= |s.txs[t].log|
    ensures var next := Apply(hash, s, UndoTo(t, n));
            && next.store == s.store && next.txs.Keys == s.txs.Keys
            && next.txs[t] == Tx(s.txs[t].log[..n], Idle)
            && forall o :: o in s.txs && o != t ==> next.txs[o] == s.txs[o]
  {
  }

  /** A commit publishes exactly what the transaction wrote and frees its locks; an abort publishes nothing. */
  lemma EndedExactly(hash: Pair -> int, s: System, t: nat)
    requires t in s.txs
    ensures var next := Apply(hash, s, Abort(t));
            next.store == s.store && next.txs.Keys == s.txs.Keys - {t}
              && forall o :: o in next.txs ==> next.txs[o] == s.txs[o]
    ensures s.txs[t].statement.Idle? ==>
              var next := Apply(hash, s, Commit(t));
              && next.txs.Keys == s.txs.Keys - {t} && (forall o :: o in next.txs ==> next.txs[o] == s.txs[o])
              && (forall l :: l in next.store.links <==> Sees(s, t, l))
              && (forall c :: c in next.store.corrections <==> c in s.store.corrections || Corrects(c) in s.txs[t].log)
    ensures !s.txs[t].statement.Idle? ==> Apply(hash, s, Commit(t)) == s
  {
    forall l, c
      ensures l in Visible(s.store, s.txs[t].log).links <==> Sees(s, t, l)
      ensures c in Visible(s.store, s.txs[t].log).corrections
          <==> c in s.store.corrections || Corrects(c) in s.txs[t].log
    {
      LinkVisible(s.store, s.txs[t].log, l);
      CorrectionVisible(s.store, s.txs[t].log, c);
    }
  }
}
