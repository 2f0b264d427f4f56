/** What every interleaving of the link transactions keeps, and why the trigger's lock is needed. */
module LinkProtocolTheorems {
  import opened LinkProtocol

  // ---- Current links of larger stores ----

  lemma CurrentShrinks(s: Store, more: Store, l: Link)
    requires IsCurrent(more, l) && s.corrections <= more.corrections && l in s.links
    ensures IsCurrent(s, l)
  {
  }

  /** A link beside a store without a current one of its pair. */
  lemma OneCurrentWithLink(s: Store, link: Link, more: Store)
    requires OneCurrent(s) && !HasCurrent(s, link.pair)
    requires more.links == s.links + {link} && more.corrections == s.corrections
    ensures OneCurrent(more)
  {
    forall k, l | IsCurrent(more, k) && IsCurrent(more, l) && k.pair == l.pair
      ensures k == l
    {
      if k != link && l != link {
        CurrentShrinks(s, more, k);
        CurrentShrinks(s, more, l);
      }
    }
  }

  lemma OneCurrentWithCorrections(s: Store, more: Store)
    requires OneCurrent(s) && more.links == s.links && s.corrections <= more.corrections
    ensures OneCurrent(more)
  {
  }

  lemma VisibleNext(s: Store, log: seq<Event>, e: Event)
    ensures Visible(s, log + [e]).links == Visible(s, log).links + (if e.Links? then {e.link} else {})
    ensures Visible(s, log + [e]).corrections
      == Visible(s, log).corrections + (if e.Corrects? then {e.correction} else {})
  {
  }

  lemma VisibleNone(s: Store)
    ensures Visible(s, []) == s
  {
  }

  // ---- Steps within one transaction ----

  lemma PrefixesAfterAppend(s: System, t: nat, e: Event, statement: Statement)
    requires t in s.txs && OneCurrentSeen(s) && OneCurrent(Visible(s.store, s.txs[t].log + [e]))
    ensures OneCurrentSeen(With(s, t, Tx(s.txs[t].log + [e], statement)))
  {
    hide OneCurrent, Visible;
    var log := s.txs[t].log;
    var next := With(s, t, Tx(log + [e], statement));
    forall o, n | o in next.txs && 0 <= n <= |next.txs[o].log|
      ensures OneCurrent(Visible(next.store, next.txs[o].log[..n]))
    {
      if o == t {
        if n <= |log| {
          assert (log + [e])[..n] == log[..n];
        } else {
          assert (log + [e])[..n] == log + [e];
        }
      }
    }
  }

  lemma WholeLog(s: System, t: nat)
    requires t in s.txs && OneCurrentSeen(s)
    ensures OneCurrent(Visible(s.store, s.txs[t].log))
  {
    var log := s.txs[t].log;
    assert log[..|log|] == log;
  }

  lemma LinksLockedAfterAppend(s: System, t: nat, e: Event, statement: Statement)
    requires t in s.txs && LinksLocked(s) && (e.Links? ==> Locks(e.link.pair) in s.txs[t].log)
    ensures LinksLocked(With(s, t, Tx(s.txs[t].log + [e], statement)))
  {
    var log := s.txs[t].log;
    var next := With(s, t, Tx(log + [e], statement));
    forall o, i | o in next.txs && 0 <= i < |next.txs[o].log| && next.txs[o].log[i].Links?
      ensures exists j :: 0 <= j < i && next.txs[o].log[j] == Locks(next.txs[o].log[i].link.pair)
    {
      if o == t && i < |log| {
        var j :| 0 <= j < i && log[j] == Locks(log[i].link.pair);
        assert (log + [e])[j] == log[j];
      } else if o == t {
        var j :| 0 <= j < |log| && log[j] == Locks(e.link.pair);
        assert (log + [e])[j] == log[j];
      } else {
        assert s.txs[o].log[i].Links?;
      }
    }
  }

  lemma StatementsAfter(s: System, t: nat, tx: Tx)
    requires StatementsSound(s) && StatementSound(s.store, tx)
    ensures StatementsSound(With(s, t, tx))
  {
    hide StatementSound;
  }

  lemma AppendAdds(s: System, t: nat, e: Event, statement: Statement)
    requires t in s.txs
    ensures var next := With(s, t, Tx(s.txs[t].log + [e], statement));
            && (forall o, p :: Took(next, o, p) <==> Took(s, o, p) || (o == t && e == Locks(p)))
            && (forall o, c :: Wrote(next, o, c) <==> Wrote(s, o, c) || (o == t && e == Corrects(c)))
  {
  }

  lemma ExclusiveAfterWrite(hash: Pair -> int, s: System, t: nat, e: Event, statement: Statement)
    requires t in s.txs && LocksExclusive(hash, s) && !e.Locks?
    ensures LocksExclusive(hash, With(s, t, Tx(s.txs[t].log + [e], statement)))
  {
    hide Took, Wrote;
    AppendAdds(s, t, e, statement);
  }

  lemma NoForkAfterOther(s: System, t: nat, e: Event, statement: Statement)
    requires t in s.txs && NoFork(s) && !e.Corrects?
    ensures NoFork(With(s, t, Tx(s.txs[t].log + [e], statement)))
  {
    hide Took, Wrote;
    AppendAdds(s, t, e, statement);
  }

  lemma NotSuperseding(s: System, id: nat)
    requires !Superseding(s, id)
    ensures forall o, c :: Wrote(s, o, c) ==> c.superseded != id
    ensures forall c :: c in s.store.corrections ==> c.superseded != id
  {
    forall o, c | Wrote(s, o, c)
      ensures c.superseded != id
    {
      assert Corrects(c) in s.txs[o].log && Corrects(c).Corrects?;
    }
  }

  lemma NoForkAfterCorrection(s: System, t: nat, c: Correction)
    requires t in s.txs && NoFork(s) && !Superseding(s, c.superseded)
    ensures NoFork(With(s, t, Tx(s.txs[t].log + [Corrects(c)], Idle)))
  {
    hide Took, Wrote, Superseding;
    AppendAdds(s, t, Corrects(c), Idle);
    NotSuperseding(s, c.superseded);
  }

  lemma FewerTaken(hash: Pair -> int, s: System, next: System)
    requires LocksExclusive(hash, s) && forall o, p :: Took(next, o, p) ==> Took(s, o, p)
    ensures LocksExclusive(hash, next)
  {
    hide Took;
  }

  lemma FewerWritten(s: System, next: System)
    requires NoFork(s) && next.store == s.store && forall o, c :: Wrote(next, o, c) ==> Wrote(s, o, c)
    ensures NoFork(next)
  {
    hide Wrote;
  }

  /** A step that adds neither locks nor corrections to any log, nor commits any. */
  lemma NothingAdded(hash: Pair -> int, s: System, next: System)
    requires LocksExclusive(hash, s) && NoFork(s) && next.store == s.store
    requires forall o, e :: o in next.txs && e in next.txs[o].log ==> o in s.txs && e in s.txs[o].log
    ensures LocksExclusive(hash, next) && NoFork(next)
  {
    hide LocksExclusive, NoFork;
    FewerTaken(hash, s, next);
    FewerWritten(s, next);
  }

  lemma SameLogKeeps(hash: Pair -> int, s: System, t: nat, statement: Statement)
    requires t in s.txs && Inv(hash, s) && StatementSound(s.store, Tx(s.txs[t].log, statement))
    ensures Inv(hash, With(s, t, Tx(s.txs[t].log, statement)))
  {
    hide OneCurrent, Visible, StatementSound, StatementsSound, LocksExclusive, NoFork;
    StatementsAfter(s, t, Tx(s.txs[t].log, statement));
    NothingAdded(hash, s, With(s, t, Tx(s.txs[t].log, statement)));
  }

  lemma TakeLockKeeps(hash: Pair -> int, s: System, a: Action)
    requires Inv(hash, s) && a.TakeLock?
    ensures Inv(hash, Apply(hash, s, a))
  {
    hide OneCurrentSeen, LinksLocked, StatementsSound, LocksExclusive, NoFork, LockFree, Visible, HasCurrent;
    if a.t in s.txs && s.txs[a.t].statement.Idle? && LockFree(hash, s, a.t, a.link.pair) {
      var log, e := s.txs[a.t].log, Locks(a.link.pair);
      WholeLog(s, a.t);
      LockShowsNothing(s.store, log, e);
      PrefixesAfterAppend(s, a.t, e, Locked(a.link));
      LinksLockedAfterAppend(s, a.t, e, Locked(a.link));
      StatementsAfter(s, a.t, Tx(log + [e], Locked(a.link)));
      ExclusiveAfterLock(hash, s, a.t, a.link);
      NoForkAfterOther(s, a.t, e, Locked(a.link));
    }
  }

  lemma LockShowsNothing(s: Store, log: seq<Event>, e: Event)
    requires e.Locks?
    ensures Visible(s, log + [e]) == Visible(s, log)
  {
    VisibleNext(s, log, e);
  }

  lemma ExclusiveAfterLock(hash: Pair -> int, s: System, t: nat, link: Link)
    requires t in s.txs && LocksExclusive(hash, s) && LockFree(hash, s, t, link.pair)
    ensures LocksExclusive(hash, With(s, t, Tx(s.txs[t].log + [Locks(link.pair)], Locked(link))))
  {
    hide Took, Wrote, LockFree;
    AppendAdds(s, t, Locks(link.pair), Locked(link));
    forall o, p | Took(s, o, p) && hash(p) == hash(link.pair)
      ensures o == t
    {
      TookMeansHolds(hash, s, o, p, link.pair);
      LockFreeMeans(hash, s, t, o, link.pair);
    }
  }

  lemma TookMeansHolds(hash: Pair -> int, s: System, t: nat, p: Pair, q: Pair)
    requires Took(s, t, p) && hash(p) == hash(q)
    ensures t in s.txs && Holds(hash, s.txs[t], q)
  {
    assert Locks(p).Locks?;
  }

  lemma LockFreeMeans(hash: Pair -> int, s: System, t: nat, o: nat, p: Pair)
    requires LockFree(hash, s, t, p) && o in s.txs && Holds(hash, s.txs[o], p)
    ensures o == t
  {
  }

  lemma CheckKeeps(hash: Pair -> int, s: System, a: Action)
    requires Inv(hash, s) && a.Check?
    ensures Inv(hash, Apply(hash, s, a))
  {
    hide Inv, Visible, HasCurrent;
    if a.t in s.txs && s.txs[a.t].statement.Locked? {
      var tx := s.txs[a.t];
      SoundNow(hash, s, a.t);
      SameLogKeeps(hash, s, a.t,
                   if HasCurrent(Visible(s.store, tx.log), tx.statement.link.pair) then Failed
                     else Checked(tx.statement.link));
    }
  }

  lemma SoundNow(hash: Pair -> int, s: System, t: nat)
    requires t in s.txs && Inv(hash, s)
    ensures StatementSound(s.store, s.txs[t])
  {
  }

  lemma InsertKeeps(hash: Pair -> int, s: System, a: Action)
    requires Inv(hash, s) && a.Insert?
    ensures Inv(hash, Apply(hash, s, a))
  {
    hide OneCurrentSeen, LinksLocked, StatementsSound, LocksExclusive, NoFork, Visible, HasCurrent, IdUsed, OneCurrent;
    if a.t in s.txs && s.txs[a.t].statement.Checked? && !IdUsed(s, s.txs[a.t].statement.link.id) {
      var log, link := s.txs[a.t].log, s.txs[a.t].statement.link;
      var e := Links(link);
      SoundNow(hash, s, a.t);
      WholeLog(s, a.t);
      VisibleNext(s.store, log, e);
      OneCurrentWithLink(Visible(s.store, log), link, Visible(s.store, log + [e]));
      PrefixesAfterAppend(s, a.t, e, Idle);
      LinksLockedAfterAppend(s, a.t, e, Idle);
      StatementsAfter(s, a.t, Tx(log + [e], Idle));
      ExclusiveAfterWrite(hash, s, a.t, e, Idle);
      NoForkAfterOther(s, a.t, e, Idle);
    }
  }

  lemma CorrectKeeps(hash: Pair -> int, s: System, a: Action)
    requires Inv(hash, s) && a.Correct?
    ensures Inv(hash, Apply(hash, s, a))
  {
    hide OneCurrentSeen, LinksLocked, StatementsSound, LocksExclusive, NoFork, Visible, HasCurrent, OneCurrent, Exists,
      Superseding;
    if a.t in s.txs && s.txs[a.t].statement.Idle? && !Superseding(s, a.correction.superseded) {
      var log, e := s.txs[a.t].log, Corrects(a.correction);
      SameLogKeeps(hash, s, a.t, Failed);
      WholeLog(s, a.t);
      VisibleNext(s.store, log, e);
      OneCurrentWithCorrections(Visible(s.store, log), Visible(s.store, log + [e]));
      PrefixesAfterAppend(s, a.t, e, Idle);
      LinksLockedAfterAppend(s, a.t, e, Idle);
      StatementsAfter(s, a.t, Tx(log + [e], Idle));
      ExclusiveAfterWrite(hash, s, a.t, e, Idle);
      NoForkAfterCorrection(s, a.t, a.correction);
    }
  }

  lemma BeginKeeps(hash: Pair -> int, s: System, a: Action)
    requires Inv(hash, s) && a.Begin?
    ensures Inv(hash, Apply(hash, s, a))
  {
    hide OneCurrent, Visible, HasCurrent, StatementsSound, LocksExclusive, NoFork;
    StatementsAfter(s, a.t, Tx([], Idle));
    NothingAdded(hash, s, Apply(hash, s, a));
    VisibleNone(s.store);
    var none: seq<Event> := [];
    assert none[..0] == none;
  }

  lemma UndoKeeps(hash: Pair -> int, s: System, a: Action)
    requires Inv(hash, s) && a.UndoTo?
    ensures Inv(hash, Apply(hash, s, a))
  {
    hide OneCurrent, Visible, HasCurrent, StatementsSound, LinksLocked, LocksExclusive, NoFork;
    if a.t in s.txs && a.n <= |s.txs[a.t].log| {
      var log := s.txs[a.t].log;
      StatementsAfter(s, a.t, Tx(log[..a.n], Idle));
      assert forall n :: 0 <= n <= a.n ==> log[..a.n][..n] == log[..n];
      UndoneLog(hash, s, a.t, a.n);
    }
  }

  lemma UndoneLog(hash: Pair -> int, s: System, t: nat, n: nat)
    requires t in s.txs && n <= |s.txs[t].log| && LinksLocked(s) && LocksExclusive(hash, s) && NoFork(s)
    ensures var next := With(s, t, Tx(s.txs[t].log[..n], Idle));
        LinksLocked(next) && LocksExclusive(hash, next) && NoFork(next)
  {
    hide LocksExclusive, NoFork, LinksLocked;
    NothingAdded(hash, s, With(s, t, Tx(s.txs[t].log[..n], Idle)));
    UndoKeepsLocked(s, t, n);
  }

  lemma UndoKeepsLocked(s: System, t: nat, n: nat)
    requires t in s.txs && n <= |s.txs[t].log| && LinksLocked(s)
    ensures LinksLocked(With(s, t, Tx(s.txs[t].log[..n], Idle)))
  {
    var next := With(s, t, Tx(s.txs[t].log[..n], Idle));
    forall o, i | o in next.txs && 0 <= i < |next.txs[o].log| && next.txs[o].log[i].Links?
      ensures exists j :: 0 <= j < i && next.txs[o].log[j] == Locks(next.txs[o].log[i].link.pair)
    {
      var j :| 0 <= j < i && s.txs[o].log[j] == Locks(s.txs[o].log[i].link.pair);
      assert next.txs[o].log[j] == s.txs[o].log[j];
    }
  }

  // ---- Steps that end a transaction ----

  lemma AbortKeeps(hash: Pair -> int, s: System, a: Action)
    requires Inv(hash, s) && a.Abort?
    ensures Inv(hash, Apply(hash, s, a))
  {
    hide OneCurrent, Visible, HasCurrent, LocksExclusive, NoFork;
    NothingAdded(hash, s, Apply(hash, s, a));
  }

  /** Merging a committed log into what another transaction sees: two writers of one pair would share its lock. */
  lemma OneCurrentMerged(hash: Pair -> int, s: System, t: nat, o: nat, n: nat)
    requires Inv(hash, s) && t in s.txs && o in s.txs && t != o && n <= |s.txs[o].log|
    ensures OneCurrent(Visible(Visible(s.store, s.txs[t].log), s.txs[o].log[..n]))
  {
    hide OneCurrent, Visible, StatementsSound, NoFork;
    var mine, theirs := Visible(s.store, s.txs[t].log), Visible(s.store, s.txs[o].log[..n]);
    var both := Visible(mine, s.txs[o].log[..n]);
    VisibleMerges(s.store, s.txs[t].log, s.txs[o].log[..n]);
    WholeLog(s, t);
    forall k, l | IsCurrent(both, k) && IsCurrent(both, l) && k.pair == l.pair
      ensures k == l
    {
      if k in mine.links && l in mine.links {
        SameByOneCurrent(mine, both, k, l);
      } else if k in theirs.links && l in theirs.links {
        SameByOneCurrent(theirs, both, k, l);
      } else if k in mine.links {
        WritersShareLock(hash, s, t, o, n, k, l);
      } else {
        WritersShareLock(hash, s, t, o, n, l, k);
      }
    }
    OneCurrentIf(both);
  }

  lemma OneCurrentIf(s: Store)
    requires forall k, l :: IsCurrent(s, k) && IsCurrent(s, l) && k.pair == l.pair ==> k == l
    ensures OneCurrent(s)
  {
  }

  lemma SameByOneCurrent(s: Store, more: Store, k: Link, l: Link)
    requires OneCurrent(s) && s.corrections <= more.corrections && k in s.links && l in s.links && k.pair == l.pair
    requires IsCurrent(more, k) && IsCurrent(more, l)
    ensures k == l
  {
    CurrentShrinks(s, more, k);
    CurrentShrinks(s, more, l);
  }

  lemma VisibleMerges(s: Store, a: seq<Event>, b: seq<Event>)
    ensures Visible(Visible(s, a), b).links == Visible(s, a).links + Visible(s, b).links
    ensures Visible(s, a).corrections <= Visible(Visible(s, a), b).corrections
    ensures Visible(s, b).corrections <= Visible(Visible(s, a), b).corrections
    ensures s.links <= Visible(s, a).links && s.links <= Visible(s, b).links
  {
  }

  lemma WriterTook(s: System, t: nat, n: nat, l: Link)
    requires LinksLocked(s) && t in s.txs && n <= |s.txs[t].log|
    requires l in Visible(s.store, s.txs[t].log[..n]).links && l !in s.store.links
    ensures Took(s, t, l.pair)
  {
    var log := s.txs[t].log;
    var e :| e in log[..n] && e.Links? && e.link == l;
    var i :| 0 <= i < n && log[i] == e;
    var j :| 0 <= j < i && log[j] == Locks(log[i].link.pair);
    assert log[j] in log;
  }

  lemma WritersShareLock(hash: Pair -> int, s: System, t: nat, o: nat, n: nat, k: Link, l: Link)
    requires LinksLocked(s) && LocksExclusive(hash, s) && t in s.txs && o in s.txs && t != o && n <= |s.txs[o].log|
    requires k in Visible(s.store, s.txs[t].log).links && k !in s.store.links && l !in s.store.links
    requires l in Visible(s.store, s.txs[o].log[..n]).links
    ensures k.pair != l.pair
  {
    hide LinksLocked, Visible, Took;
    var mine := s.txs[t].log;
    assert mine[..|mine|] == mine;
    WriterTook(s, t, |mine|, k);
    WriterTook(s, o, n, l);
  }

  /** What a transaction has checked stays so when another commits. */
  lemma StillNoCurrent(hash: Pair -> int, s: System, t: nat, o: nat, p: Pair)
    requires Inv(hash, s) && t in s.txs && o in s.txs && t != o
    requires Locks(p) in s.txs[o].log && !HasCurrent(Visible(s.store, s.txs[o].log), p)
    ensures !HasCurrent(Visible(Visible(s.store, s.txs[t].log), s.txs[o].log), p)
  {
    hide OneCurrentSeen, StatementsSound, NoFork;
    var mine, theirs := s.txs[t].log, s.txs[o].log;
    var both := Visible(Visible(s.store, mine), theirs);
    VisibleMerges(s.store, mine, theirs);
    assert Took(s, o, p);
    if l :| l in both.links && l.pair == p && IsCurrent(both, l) {
      if l in Visible(s.store, theirs).links {
        CurrentShrinks(Visible(s.store, theirs), both, l);
      } else {
        assert mine[..|mine|] == mine;
        WriterTook(s, t, |mine|, l);
      }
    }
  }

  lemma CommitKeeps(hash: Pair -> int, s: System, a: Action)
    requires Inv(hash, s) && a.Commit?
    ensures Inv(hash, Apply(hash, s, a))
  {
    hide OneCurrent, HasCurrent, Visible, LinksLocked, LocksExclusive, OneCurrentSeen, StatementsSound, NoFork;
    if a.t in s.txs && s.txs[a.t].statement.Idle? {
      var next := System(Visible(s.store, s.txs[a.t].log), Ended(s, a.t));
      CommitKeepsSeen(hash, s, a.t);
      CommitKeepsStatements(hash, s, a.t);
      CommitKeepsLocks(hash, s, a.t);
      CommitKeepsLineage(hash, s, a.t);
    }
  }

  lemma CommitKeepsSeen(hash: Pair -> int, s: System, t: nat)
    requires Inv(hash, s) && t in s.txs
    ensures OneCurrentSeen(System(Visible(s.store, s.txs[t].log), Ended(s, t)))
  {
    hide OneCurrent, HasCurrent, Visible, LinksLocked, LocksExclusive, StatementsSound, NoFork;
    WholeLog(s, t);
    var next := System(Visible(s.store, s.txs[t].log), Ended(s, t));
    forall o, n | o in next.txs && 0 <= n <= |next.txs[o].log|
      ensures OneCurrent(Visible(next.store, next.txs[o].log[..n]))
    {
      OneCurrentMerged(hash, s, t, o, n);
    }
  }

  lemma CommitKeepsStatements(hash: Pair -> int, s: System, t: nat)
    requires Inv(hash, s) && t in s.txs
    ensures StatementsSound(System(Visible(s.store, s.txs[t].log), Ended(s, t)))
  {
    hide OneCurrent, HasCurrent, Visible, LinksLocked, LocksExclusive, OneCurrentSeen, NoFork;
    forall o | o in s.txs && o != t && s.txs[o].statement.Checked?
      ensures !HasCurrent(Visible(Visible(s.store, s.txs[t].log), s.txs[o].log), s.txs[o].statement.link.pair)
    {
      StillNoCurrent(hash, s, t, o, s.txs[o].statement.link.pair);
    }
  }

  lemma CommitKeepsLocks(hash: Pair -> int, s: System, t: nat)
    requires LinksLocked(s) && LocksExclusive(hash, s) && t in s.txs
    ensures var next := System(Visible(s.store, s.txs[t].log), Ended(s, t));
        LinksLocked(next) && LocksExclusive(hash, next)
  {
    hide Visible, LocksExclusive;
    FewerTaken(hash, s, System(Visible(s.store, s.txs[t].log), Ended(s, t)));
  }

  lemma CommitKeepsLineage(hash: Pair -> int, s: System, t: nat)
    requires NoFork(s) && t in s.txs
    ensures NoFork(System(Visible(s.store, s.txs[t].log), Ended(s, t)))
  {
    hide Wrote;
    CommitMoves(s, t);
  }

  lemma CommitMoves(s: System, t: nat)
    requires t in s.txs
    ensures var next := System(Visible(s.store, s.txs[t].log), Ended(s, t));
            && (forall o, c :: Wrote(next, o, c) ==> Wrote(s, o, c) && o != t)
            && (forall c :: c in next.store.corrections <==> c in s.store.corrections || Wrote(s, t, c))
  {
    forall c | c in Visible(s.store, s.txs[t].log).corrections && c !in s.store.corrections
      ensures Wrote(s, t, c)
    {
      var e :| e in s.txs[t].log && e.Corrects? && e.correction == c;
    }
    forall c | Wrote(s, t, c)
      ensures c in Visible(s.store, s.txs[t].log).corrections
    {
      assert Corrects(c) in s.txs[t].log && Corrects(c).Corrects?;
    }
  }

  // ---- Over every run ----

  lemma StepKeepsInv(hash: Pair -> int, s: System, a: Action)
    requires Inv(hash, s)
    ensures Inv(hash, Apply(hash, s, a))
  {
    hide Inv, Apply;
    match a
    case Begin(_) => BeginKeeps(hash, s, a);
    case TakeLock(_, _) => TakeLockKeeps(hash, s, a);
    case Check(_) => CheckKeeps(hash, s, a);
    case Insert(_) => InsertKeeps(hash, s, a);
    case Correct(_, _) => CorrectKeeps(hash, s, a);
    case UndoTo(_, _) => UndoKeeps(hash, s, a);
    case Commit(_) => CommitKeeps(hash, s, a);
    case Abort(_) => AbortKeeps(hash, s, a);
  }

  lemma {:induction false} EveryRunKeepsInv(hash: Pair -> int, actions: seq<Action>)
    ensures Inv(hash, Run(hash, EMPTY, actions))
  {
    hide Apply;
    if actions == [] {
    } else {
      hide Inv;
      EveryRunKeepsInv(hash, actions[..|actions| - 1]);
      StepKeepsInv(hash, Run(hash, EMPTY, actions[..|actions| - 1]), actions[|actions| - 1]);
    }
  }

  /** In every interleaving, one committed current link per pair, and no link superseded twice. */
  lemma OneCurrentLinkAlways(hash: Pair -> int, actions: seq<Action>)
    ensures var s := Run(hash, EMPTY, actions).store;
            && (forall k, l :: IsCurrent(s, k) && IsCurrent(s, l) && k.pair == l.pair ==> k == l)
            && (forall c, d :: c in s.corrections && d in s.corrections && c.superseded == d.superseded ==> c == d)
  {
    hide Run, IsCurrent;
    EveryRunKeepsInv(hash, actions);
  }

  // ---- The guard inside the insert statement is not enough ----

  /** The same insert without its trigger's lock: it checks what it sees and writes. */
  function Unlocked(s: System, t: nat, link: Link): (r: System)
    requires t in s.txs
    ensures r.txs.Keys == s.txs.Keys
  {
    if HasCurrent(Visible(s.store, s.txs[t].log), link.pair) then s
    else With(s, t, s.txs[t].(log := s.txs[t].log + [Links(link)]))
  }

  const TWO_STARTED := System(Store({}, {}), map[1 := Tx([], Idle), 2 := Tx([], Idle)])
  const ONE := Link(1, Pair(7, 8))
  const OTHER := Link(2, Pair(7, 8))
  const RACED := System(Store({}, {}), map[1 := Tx([Links(ONE)], Idle), 2 := Tx([Links(OTHER)], Idle)])

  lemma BothStart(hash: Pair -> int)
    ensures Run(hash, EMPTY, [Begin(1), Begin(2)]) == TWO_STARTED
  {
    var begin1, begin2: seq<Action> := [Begin(1)], [Begin(1), Begin(2)];
    assert begin2[..1] == begin1 && begin1[..0] == [];
    assert Run(hash, EMPTY, begin1) == System(Store({}, {}), map[1 := Tx([], Idle)]);
  }

  lemma BothInsert()
    ensures Unlocked(Unlocked(TWO_STARTED, 1, ONE), 2, OTHER) == RACED
  {
    var nothing: seq<Event> := [];
    VisibleNone(Store({}, {}));
    assert nothing + [Links(ONE)] == [Links(ONE)] && nothing + [Links(OTHER)] == [Links(OTHER)];
  }

  lemma BothCommit(hash: Pair -> int)
    ensures !OneCurrent(Run(hash, RACED, [Commit(1), Commit(2)]).store)
  {
    var commit1, commit2: seq<Action> := [Commit(1)], [Commit(1), Commit(2)];
    assert commit2[..1] == commit1 && commit1[..0] == [];
    assert Run(hash, RACED, []) == RACED;
    assert Ended(RACED, 1) == map[2 := Tx([Links(OTHER)], Idle)];
    var first := Run(hash, RACED, commit1);
    assert first == Apply(hash, RACED, Commit(1));
    assert Links(ONE) in [Links(ONE)] && Links(OTHER) in [Links(OTHER)];
    var last := Run(hash, RACED, commit2);
    assert IsCurrent(last.store, ONE) && IsCurrent(last.store, OTHER);
  }

  /** Two transactions that both check before either commits leave two current links of one pair. */
  lemma GuardAloneFails(hash: Pair -> int)
    ensures Run(hash, EMPTY, [Begin(1), Begin(2)]) == TWO_STARTED
    ensures var raced := Unlocked(Unlocked(TWO_STARTED, 1, ONE), 2, OTHER);
            !OneCurrent(Run(hash, raced, [Commit(1), Commit(2)]).store)
  {
    hide Run, Apply, Unlocked, OneCurrent;
    BothStart(hash);
    BothInsert();
    BothCommit(hash);
  }
}
