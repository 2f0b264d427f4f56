/**
 The one-current-link trigger as a protocol between concurrent transactions.  A transaction sees what
 is committed and its own writes; an advisory lock on the relationship's key is held until the
 transaction, or the savepoint it was taken under, ends.
 */
module LinkProtocol {
  import opened Options

  datatype Pair = Pair(procurement: nat, sales: nat)
  datatype Link = Link(id: nat, pair: Pair)
  datatype Correction = Correction(superseded: nat, replacement: Option<nat>)

  datatype Store = Store(links: set<Link>, corrections: set<Correction>)

  /** What a transaction has done so far, in order; undoing to a savepoint cuts the log. */
  datatype Event = Locks(pair: Pair) | Links(link: Link) | Corrects(correction: Correction)

  /** The insert under way: its trigger holds the lock, or has also found no current link; or it has failed. */
  datatype Statement = Idle | Locked(link: Link) | Checked(link: Link) | Failed

  datatype Tx = Tx(log: seq<Event>, statement: Statement)

  datatype System = System(store: Store, txs: map<nat, Tx>)

  function Visible(store: Store, log: seq<Event>): Store {
    Store(store.links + (set e | e in log && e.Links? :: e.link),
          store.corrections + (set e | e in log && e.Corrects? :: e.correction))
  }

  predicate IsCurrent(s: Store, l: Link) { l in s.links && forall c :: c in s.corrections ==> c.superseded != l.id }

  predicate HasCurrent(s: Store, p: Pair) { exists l :: l in s.links && l.pair == p && IsCurrent(s, l) }

  predicate Holds(hash: Pair -> int, tx: Tx, p: Pair) { exists e :: e in tx.log && e.Locks? && hash(e.pair) == hash(p) }

  predicate LockFree(hash: Pair -> int, s: System, t: nat, p: Pair) {
    forall o :: o in s.txs && o != t ==> !Holds(hash, s.txs[o], p)
  }

  predicate IdUsed(s: System, id: nat) {
    || (exists l :: l in s.store.links && l.id == id)
    || (exists o :: o in s.txs && exists e :: e in s.txs[o].log && e.Links? && e.link.id == id)
  }

  predicate Superseding(s: System, id: nat) {
    || (exists c :: c in s.store.corrections && c.superseded == id)
    || (exists o :: o in s.txs && exists e :: e in s.txs[o].log && e.Corrects? && e.correction.superseded == id)
  }

  predicate Exists(s: Store, id: nat) { exists l :: l in s.links && l.id == id }

  datatype Action =
    | Begin(t: nat)
    | TakeLock(t: nat, link: Link)
    | Check(t: nat)
    | Insert(t: nat)
    | Correct(t: nat, correction: Correction)
    | UndoTo(t: nat, n: nat)
    | Commit(t: nat)
    | Abort(t: nat)

  function With(s: System, t: nat, tx: Tx): System { s.(txs := s.txs[t := tx]) }

  function Ended(s: System, t: nat): map<nat, Tx> { map o | o in s.txs && o != t :: s.txs[o] }

  /** An action that must wait, or does not apply, changes nothing. */
  function Apply(hash: Pair -> int, s: System, a: Action): System {
    if a.Begin? then (if a.t in s.txs then s else With(s, a.t, Tx([], Idle)))
    else if a.t !in s.txs then s
    else
      var tx := s.txs[a.t];
      match a
      case TakeLock(t, link) =>
        if tx.statement.Idle? && LockFree(hash, s, t, link.pair)
          then With(s, t, Tx(tx.log + [Locks(link.pair)], Locked(link))) else s
      case Check(t) =>
        if !tx.statement.Locked? then s
        else if HasCurrent(Visible(s.store, tx.log), tx.statement.link.pair) then With(s, t, tx.(statement := Failed))
        else With(s, t, tx.(statement := Checked(tx.statement.link)))
      case Insert(t) =>
        if tx.statement.Checked? && !IdUsed(s, tx.statement.link.id)
          then With(s, t, Tx(tx.log + [Links(tx.statement.link)], Idle)) else s
      case Correct(t, c) =>
        if !tx.statement.Idle? || Superseding(s, c.superseded) then s
        else if !Exists(Visible(s.store, tx.log), c.superseded)
                || (c.replacement.Some? && !Exists(Visible(s.store, tx.log), c.replacement.value))
        then With(s, t, tx.(statement := Failed))
        else With(s, t, tx.(log := tx.log + [Corrects(c)]))
      case UndoTo(t, n) => if n <= |tx.log| then With(s, t, Tx(tx.log[..n], Idle)) else s
      case Commit(t) => if tx.statement.Idle? then System(Visible(s.store, tx.log), Ended(s, t)) else s
      case Abort(t) => s.(txs := Ended(s, t))
  }

  function Run(hash: Pair -> int, s: System, actions: seq<Action>): System {
    if actions == [] then s else Apply(hash, Run(hash, s, actions[..|actions| - 1]), actions[|actions| - 1])
  }

  const EMPTY := System(Store({}, {}), map[])

  // ---- What every step keeps ----

  ghost predicate OneCurrent(s: Store) {
    forall k, l :: IsCurrent(s, k) && IsCurrent(s, l) && k.pair == l.pair ==> k == l
  }

  /** Whatever a transaction has written, and whatever prefix of it an undo would leave. */
  ghost predicate OneCurrentSeen(s: System) {
    && OneCurrent(s.store)
    && forall t, n :: t in s.txs && 0 <= n <= |s.txs[t].log| ==> OneCurrent(Visible(s.store, s.txs[t].log[..n]))
  }

  /** Every link written stands behind a lock taken before it. */
  ghost predicate LinksLocked(s: System) {
    forall t, i :: t in s.txs && 0 <= i < |s.txs[t].log| && s.txs[t].log[i].Links? ==>
      exists j :: 0 <= j < i && s.txs[t].log[j] == Locks(s.txs[t].log[i].link.pair)
  }

  ghost predicate StatementSound(store: Store, tx: Tx) {
    && (tx.statement.Locked? || tx.statement.Checked? ==> Locks(tx.statement.link.pair) in tx.log)
    && (tx.statement.Checked? ==> !HasCurrent(Visible(store, tx.log), tx.statement.link.pair))
  }

  ghost predicate StatementsSound(s: System) { forall t :: t in s.txs ==> StatementSound(s.store, s.txs[t]) }

  ghost predicate Took(s: System, t: nat, p: Pair) { t in s.txs && Locks(p) in s.txs[t].log }

  ghost predicate Wrote(s: System, t: nat, c: Correction) { t in s.txs && Corrects(c) in s.txs[t].log }

  /** No two transactions hold the same lock. */
  ghost predicate LocksExclusive(hash: Pair -> int, s: System) {
    forall t, o, p, q :: Took(s, t, p) && Took(s, o, q) && hash(p) == hash(q) ==> t == o
  }

  /** No link is superseded twice, neither among the committed corrections nor by any that may yet be committed. */
  ghost predicate NoFork(s: System) {
    && (forall c, d :: c in s.store.corrections && d in s.store.corrections && c.superseded == d.superseded ==> c == d)
    && (forall t, d, c :: Wrote(s, t, d) && c in s.store.corrections ==> d.superseded != c.superseded)
    && (forall t, o, c, d :: Wrote(s, t, c) && Wrote(s, o, d) && c.superseded == d.superseded ==> t == o && c == d)
  }

  ghost predicate Inv(hash: Pair -> int, s: System) {
    OneCurrentSeen(s) && LinksLocked(s) && StatementsSound(s) && LocksExclusive(hash, s) && NoFork(s)
  }
}
