/**
Initialising, unsealing and sealing the storage. Key shares are stored one request after
another, encrypted under a key that the process draws when it starts, until there are
enough of them.
*/
module Unseal {
  import opened Wrappers

  datatype PoolState = Uninitialized | Sealed | Unsealed

  datatype SealConfig = SealConfig(threshold: nat, shares: nat)

  // A stored share, and the process (counted from 0) under whose key it is encrypted.
  datatype KeyShare = KeyShare(share: string, epoch: nat)

  datatype State = State(
    pool: PoolState,
    storageExists: bool,
    config: Option<SealConfig>,
    rows: seq<KeyShare>,
    epoch: nat
  )

  // The cryptography: which master key the shares combine to, and whether it opens the
  // storage.
  datatype Crypto = Crypto(recover: (seq<string>, nat) -> Option<string>, opens: string -> bool)

  datatype Response =
    | Initialized
    | InProgress(threshold: nat, total: nat, provided: nat)
    | Complete
    | SealedNow
    | Restarted
    | Failed(error: Error)

  datatype Error =
    | WrongState
    | InvalidInitializeParams
    | ConfigExists
    | ConfigMissing
    | TransitionFailed
    | UndecryptableShare
    | BadShares
    | SetupFailed
    | SealInNonRootNamespace

  // How the creation of the storage ends. A failed one may have left the file behind.
  datatype Creation = Created | NotCreated(fileExists: bool)

  datatype Event =
    | Initialize(total: nat, threshold: nat, creation: Creation)
    | UnsealWith(shares: seq<string>, setupSucceeds: bool)
    | Seal(inRoot: bool)
    | Restart

  // ---------- The stored shares ----------

  // Without repetitions, in the order of first occurrence.
  function Distinct(shares: seq<string>): seq<string> {
    if shares == [] then []
    else
      var init, last := Distinct(shares[..|shares| - 1]), shares[|shares| - 1];
      if last in init then init else init + [last]
  }

  function SharesOf(rows: seq<KeyShare>): seq<string> {
    seq(|rows|, i requires 0 <= i < |rows| => rows[i].share)
  }

  function ToSet(shares: seq<string>): set<string> {
    set i | 0 <= i < |shares| :: shares[i]
  }

  lemma {:induction false} DistinctCounts(shares: seq<string>)
    ensures ToSet(Distinct(shares)) == ToSet(shares)
    ensures |Distinct(shares)| == |ToSet(shares)|
    ensures forall i, j | 0 <= i < j < |Distinct(shares)| :: Distinct(shares)[i] != Distinct(shares)[j]
  {
    if shares != [] {
      var init, last := shares[..|shares| - 1], shares[|shares| - 1];
      DistinctCounts(init);
      ToSetSnoc(init, last);
      assert shares == init + [last];
      ToSetSnoc(Distinct(init), last);
      InToSet(Distinct(init), last);
    }
  }

  // They come in the order in which they were first brought: the distinct ones of the first n
  // shares come first.
  lemma {:induction false} DistinctInOrder(shares: seq<string>, n: nat)
    requires n <= |shares|
    ensures Distinct(shares[..n]) <= Distinct(shares)
  {
    if n == |shares| {
      assert shares[..n] == shares;
    } else {
      var init := shares[..|shares| - 1];
      assert init[..n] == shares[..n];
      DistinctInOrder(init, n);
      assert Distinct(init) <= Distinct(shares);
    }
  }

  lemma ToSetSnoc(shares: seq<string>, last: string)
    ensures ToSet(shares + [last]) == ToSet(shares) + {last}
  {
    var all := shares + [last];
    assert all[|shares|] == last;
    forall s | s in ToSet(shares) ensures s in ToSet(all) {
      var i :| 0 <= i < |shares| && shares[i] == s;
      assert all[i] == s;
    }
  }

  lemma InToSet(shares: seq<string>, s: string)
    ensures s in ToSet(shares) <==> s in shares
  {}

  function Encrypted(shares: seq<string>, epoch: nat): seq<KeyShare> {
    seq(|shares|, i requires 0 <= i < |shares| => KeyShare(shares[i], epoch))
  }

  predicate Readable(rows: seq<KeyShare>, epoch: nat) {
    forall i | 0 <= i < |rows| :: rows[i].epoch == epoch
  }

  // ---------- What each request does ----------

  function AfterInitialize(s: State, shares: nat, threshold: nat, creation: Creation): (State, Response) {
    if !s.pool.Uninitialized? then (s, Failed(WrongState))
    else if threshold == 0 || shares < threshold then (s, Failed(InvalidInitializeParams))
    else if s.config.Some? then (s, Failed(ConfigExists))
    else
      var configured := s.(config := Some(SealConfig(threshold, shares)));
      if s.storageExists || creation.Created? then (configured.(pool := Sealed, storageExists := true), Initialized)
      else (configured.(storageExists := creation.fileExists), Failed(TransitionFailed))
  }

  function AfterUnseal(C: Crypto, s: State, shares: seq<string>, setupSucceeds: bool): (State, Response) {
    if !s.pool.Sealed? then (s, Failed(WrongState))
    else if s.config.None? then (s, Failed(ConfigMissing))
    else
      var rows := s.rows + Encrypted(shares, s.epoch);
      var cleared := s.(rows := []);
      if !Readable(rows, s.epoch) then (cleared, Failed(UndecryptableShare))
      else
        var seen := Distinct(SharesOf(rows));
        var threshold := s.config.value.threshold;
        if threshold > |seen| then (s.(rows := rows), InProgress(threshold, s.config.value.shares, |seen|))
        else
          var key := C.recover(seen, threshold);
          if key.None? then (cleared, Failed(BadShares))
          else if !C.opens(key.value) then (cleared, Failed(TransitionFailed))
          else (cleared.(pool := Unsealed), if setupSucceeds then Complete else Failed(SetupFailed))
  }

  function AfterSeal(s: State, inRoot: bool): (State, Response) {
    if !s.pool.Unsealed? then (s, Failed(WrongState))
    else if !inRoot then (s, Failed(SealInNonRootNamespace))
    else (s.(pool := Sealed), SealedNow)
  }

  function AfterRestart(s: State): (State, Response) {
    (s.(pool := if s.storageExists then Sealed else Uninitialized, epoch := s.epoch + 1), Restarted)
  }

  function After(C: Crypto, s: State, e: Event): (State, Response) {
    match e
    case Initialize(total, threshold, creation) => AfterInitialize(s, total, threshold, creation)
    case UnsealWith(shares, setupSucceeds) => AfterUnseal(C, s, shares, setupSucceeds)
    case Seal(inRoot) => AfterSeal(s, inRoot)
    case Restart => AfterRestart(s)
  }

  // ---------- The server ----------

  class Server {
    var pool: PoolState
    var storageExists: bool
    var config: Option<SealConfig>
    var rows: seq<KeyShare>
    var epoch: nat

    constructor (storageExists: bool)
      ensures Now() == Start(storageExists)
    {
      pool := if storageExists then Sealed else Uninitialized;
      this.storageExists := storageExists;
      config := None;
      rows := [];
      epoch := 0;
    }

    function Now(): State
      reads this
    {
      State(pool, storageExists, config, rows, epoch)
    }

    method InsertKeyShare(share: string)
      modifies this`rows
      ensures rows == old(rows) + [KeyShare(share, epoch)]
    {
      rows := rows + [KeyShare(share, epoch)];
    }

    method ClearKeyShares()
      modifies this`rows
      ensures rows == []
    {
      rows := [];
    }

    // The stored shares, each of them once. A share that cannot be decrypted clears the
    // table.
    method GetKeyShares() returns (r: Option<seq<string>>)
      modifies this`rows
      ensures r.Some? <==> Readable(old(rows), epoch)
      ensures r.Some? ==> rows == old(rows) && r.value == Distinct(SharesOf(rows))
      ensures r.None? ==> rows == []
    {
      var decrypted: seq<string> := [];
      var i := 0;
      while i < |rows|
        invariant 0 <= i <= |rows| && rows == old(rows)
        invariant Readable(rows[..i], epoch)
        invariant decrypted == Distinct(SharesOf(rows[..i]))
      {
        if rows[i].epoch != epoch {
          ClearKeyShares();
          return None;
        }
        assert rows[..i + 1] == rows[..i] + [rows[i]];
        assert SharesOf(rows[..i + 1]) == SharesOf(rows[..i]) + [rows[i].share];
        assert SharesOf(rows[..i + 1])[..i] == SharesOf(rows[..i]);
        if rows[i].share !in decrypted {
          decrypted := decrypted + [rows[i].share];
        }
        i := i + 1;
      }
      assert rows[..i] == rows;
      r := Some(decrypted);
    }

    method HandleUnseal(C: Crypto, shares: seq<string>, setupSucceeds: bool) returns (response: Response)
      modifies this
      ensures (Now(), response) == AfterUnseal(C, old(Now()), shares, setupSucceeds)
    {
      if pool != Sealed {
        return Failed(WrongState);
      }
      if config.None? {
        return Failed(ConfigMissing);
      }
      ghost var before := Now();
      var i := 0;
      while i < |shares|
        invariant 0 <= i <= |shares|
        invariant rows == before.rows + Encrypted(shares[..i], epoch)
        invariant Now() == before.(rows := rows)
      {
        assert Encrypted(shares[..i + 1], epoch) == Encrypted(shares[..i], epoch) + [KeyShare(shares[i], epoch)];
        InsertKeyShare(shares[i]);
        i := i + 1;
      }
      assert shares[..i] == shares;
      var stored := GetKeyShares();
      if stored.None? {
        return Failed(UndecryptableShare);
      }
      var threshold := config.value.threshold;
      if threshold > |stored.value| {
        return InProgress(threshold, config.value.shares, |stored.value|);
      }
      var key := C.recover(stored.value, threshold);
      ClearKeyShares();
      if key.None? {
        return Failed(BadShares);
      }
      if !C.opens(key.value) {
        return Failed(TransitionFailed);
      }
      pool := Unsealed;
      ClearKeyShares();
      if !setupSucceeds {
        return Failed(SetupFailed);
      }
      response := Complete;
    }

    method HandleInitialize(shares: nat, threshold: nat, creation: Creation) returns (response: Response)
      modifies this
      ensures (Now(), response) == AfterInitialize(old(Now()), shares, threshold, creation)
    {
      if pool != Uninitialized {
        return Failed(WrongState);
      }
      if threshold == 0 || shares < threshold {
        return Failed(InvalidInitializeParams);
      }
      if config.Some? {
        return Failed(ConfigExists);
      }
      config := Some(SealConfig(threshold, shares));
      if !storageExists && creation.NotCreated? {
        storageExists := creation.fileExists;
        return Failed(TransitionFailed);
      }
      pool, storageExists := Sealed, true;
      response := Initialized;
    }

    method HandleSeal(inRoot: bool) returns (response: Response)
      modifies this
      ensures (Now(), response) == AfterSeal(old(Now()), inRoot)
    {
      if pool != Unsealed {
        return Failed(WrongState);
      }
      if !inRoot {
        return Failed(SealInNonRootNamespace);
      }
      pool := Sealed;
      response := SealedNow;
    }
  }

  // ---------- Runs ----------

  function Start(storageExists: bool): State {
    State(if storageExists then Sealed else Uninitialized, storageExists, None, [], 0)
  }

  function Run(C: Crypto, storageExists: bool, events: seq<Event>): State {
    if events == [] then Start(storageExists)
    else After(C, Run(C, storageExists, events[..|events| - 1]), events[|events| - 1]).0
  }

  // The shares of the requests since shares were last cleared, going by the answers that
  // the requests got.
  function SinceClear(C: Crypto, storageExists: bool, events: seq<Event>): seq<string> {
    if events == [] then []
    else
      var init, e := events[..|events| - 1], events[|events| - 1];
      SinceClearAfter(SinceClear(C, storageExists, init), e, After(C, Run(C, storageExists, init), e).1)
  }

  predicate Inv(s: State) {
    && (s.config.Some? ==>
          && 0 < s.config.value.threshold <= s.config.value.shares
          && |ToSet(SharesOf(s.rows))| < s.config.value.threshold)
    && (s.config.None? ==> s.rows == [])
    && (s.pool.Unsealed? ==> s.rows == [])
    && (!s.pool.Uninitialized? ==> s.storageExists)
    && (forall i | 0 <= i < |s.rows| :: s.rows[i].epoch <= s.epoch)
  }

  lemma AppendedShares(rows: seq<KeyShare>, shares: seq<string>, epoch: nat)
    ensures SharesOf(rows + Encrypted(shares, epoch)) == SharesOf(rows) + shares
  {}

  // What an unseal request does, in terms of the shares: it unseals only on `threshold` or
  // more distinct ones, all from this process, and it leaves fewer than that behind.
  lemma UnsealStep(C: Crypto, s: State, shares: seq<string>, setupSucceeds: bool)
    requires Inv(s)
    ensures
      var (s', response) := AfterUnseal(C, s, shares, setupSucceeds);
      var seen := ToSet(SharesOf(s.rows) + shares);
      && Inv(s')
      && (response.InProgress? ==>
            && SharesOf(s'.rows) == SharesOf(s.rows) + shares
            && response.provided == |seen| < s.config.value.threshold)
      && (s'.pool.Unsealed? && !s.pool.Unsealed? ==>
            s.config.Some? && |seen| >= s.config.value.threshold && Readable(s.rows, s.epoch))
      && (!response.InProgress? && s.pool.Sealed? && s.config.Some? ==> s'.rows == [])
  {
    AppendedShares(s.rows, shares, s.epoch);
    DistinctCounts(SharesOf(s.rows) + shares);
    var rows := s.rows + Encrypted(shares, s.epoch);
    if Readable(rows, s.epoch) {
      assert forall i | 0 <= i < |s.rows| :: s.rows[i] == rows[i];
    }
    assert SharesOf([]) == [] && ToSet([]) == {};
  }

  lemma StepKeepsInv(C: Crypto, s: State, e: Event)
    requires Inv(s)
    ensures Inv(After(C, s, e).0)
  {
    if e.UnsealWith? {
      UnsealStep(C, s, e.shares, e.setupSucceeds);
    } else if e.Initialize? {
      assert SharesOf([]) == [] && ToSet([]) == {};
    }
  }

  function SinceClearAfter(since: seq<string>, e: Event, response: Response): seq<string> {
    if !e.UnsealWith? || response == Failed(WrongState) || response == Failed(ConfigMissing) then since
    else if response.InProgress? then since + e.shares
    else []
  }

  lemma StepKeepsShares(C: Crypto, s: State, e: Event)
    requires Inv(s)
    ensures SharesOf(After(C, s, e).0.rows) == SinceClearAfter(SharesOf(s.rows), e, After(C, s, e).1)
  {
    if e.UnsealWith? { UnsealStep(C, s, e.shares, e.setupSucceeds); }
  }

  // What is stored is what the requests since the last clear have brought.
  lemma {:induction false} RunKeepsInv(C: Crypto, storageExists: bool, events: seq<Event>)
    ensures Inv(Run(C, storageExists, events))
    ensures SharesOf(Run(C, storageExists, events).rows) == SinceClear(C, storageExists, events)
  {
    if events != [] {
      var init, e := events[..|events| - 1], events[|events| - 1];
      var s := Run(C, storageExists, init);
      RunKeepsInv(C, storageExists, init);
      StepKeepsInv(C, s, e);
      StepKeepsShares(C, s, e);
      assert Run(C, storageExists, events) == After(C, s, e).0;
    }
  }

  // ---------- Main results ----------

  // Whether some of the shares since the last clear were brought to an earlier process.
  function Spoiled(C: Crypto, storageExists: bool, events: seq<Event>): bool {
    if events == [] then false
    else
      var init, e := events[..|events| - 1], events[|events| - 1];
      match e
      case Restart => SinceClear(C, storageExists, init) != []
      case UnsealWith(_, _) => SinceClear(C, storageExists, events) != [] && Spoiled(C, storageExists, init)
      case _ => Spoiled(C, storageExists, init)
  }

  lemma ReadableIff(rows: seq<KeyShare>, shares: seq<string>, epoch: nat)
    ensures Readable(rows + Encrypted(shares, epoch), epoch) <==> Readable(rows, epoch)
  {
    var all := rows + Encrypted(shares, epoch);
    assert forall i | 0 <= i < |rows| :: all[i] == rows[i];
  }

  lemma StepKeepsSpoiled(C: Crypto, s: State, e: Event)
    requires Inv(s)
    ensures
      var s' := After(C, s, e).0;
      && (e.Restart? ==> (Readable(s'.rows, s'.epoch) <==> s.rows == []))
      && (e.UnsealWith? && s'.rows != [] ==> (Readable(s'.rows, s'.epoch) <==> Readable(s.rows, s.epoch)))
      && (!e.Restart? && !e.UnsealWith? ==> s'.rows == s.rows && s'.epoch == s.epoch)
  {
    if e.UnsealWith? { ReadableIff(s.rows, e.shares, s.epoch); }
    if e.Restart? && s.rows != [] { assert s.rows[0].epoch <= s.epoch; }
  }

  lemma {:induction false} SpoiledIff(C: Crypto, storageExists: bool, events: seq<Event>)
    ensures var s := Run(C, storageExists, events); Spoiled(C, storageExists, events) <==> !Readable(s.rows, s.epoch)
  {
    if events != [] {
      var init, e := events[..|events| - 1], events[|events| - 1];
      SpoiledIff(C, storageExists, init);
      RunKeepsInv(C, storageExists, init);
      RunKeepsInv(C, storageExists, events);
      StepKeepsSpoiled(C, Run(C, storageExists, init), e);
    }
  }

  // The answer to a request by what is stored: `seen` are the distinct shares, once each.
  lemma AnswerByShares(C: Crypto, s: State, shares: seq<string>, setupSucceeds: bool, seen: seq<string>)
    requires s.pool.Sealed? && s.config.Some? && seen == Distinct(SharesOf(s.rows) + shares)
    ensures
      var (s', response) := AfterUnseal(C, s, shares, setupSucceeds);
      var SealConfig(threshold, total) := s.config.value;
      var key := C.recover(seen, threshold);
      && (!Readable(s.rows, s.epoch) ==> response == Failed(UndecryptableShare) && s' == s.(rows := []))
      && (Readable(s.rows, s.epoch) && |seen| < threshold ==>
            response == InProgress(threshold, total, |seen|) && s' == s.(rows := s.rows + Encrypted(shares, s.epoch)))
      && (Readable(s.rows, s.epoch) && |seen| >= threshold ==>
            && (key.None? ==> response == Failed(BadShares) && s' == s.(rows := []))
            && (key.Some? && !C.opens(key.value) ==> response == Failed(TransitionFailed) && s' == s.(rows := []))
            && (key.Some? && C.opens(key.value) ==>
                  s' == s.(rows := [], pool := Unsealed) && response == if setupSucceeds then Complete else Failed(SetupFailed)))
  {
    ReadableIff(s.rows, shares, s.epoch);
    AppendedShares(s.rows, shares, s.epoch);
  }

  // THE ANSWER TO AN UNSEAL REQUEST, in every run.  What counts are the shares that the requests
  // since the last clear have brought, with its own: whether all were brought to this process,
  // whether there are enough distinct ones, whether these, in the order in which they were
  // first brought, combine to a key, and whether the key opens the storage.
  lemma UnsealAnswer(C: Crypto, storageExists: bool, events: seq<Event>, shares: seq<string>, setupSucceeds: bool)
    ensures
      var s := Run(C, storageExists, events);
      var (s', response) := After(C, s, UnsealWith(shares, setupSucceeds));
      var all := SinceClear(C, storageExists, events) + shares;
      && (!s.pool.Sealed? ==> response == Failed(WrongState) && s' == s)
      && (s.pool.Sealed? && s.config.None? ==> response == Failed(ConfigMissing) && s' == s)
      && (s.pool.Sealed? && s.config.Some? ==>
            var SealConfig(threshold, total) := s.config.value;
            var enough := |ToSet(all)| >= threshold;
            var key := C.recover(Distinct(all), threshold);
            && (response == Failed(UndecryptableShare) <==> Spoiled(C, storageExists, events))
            && (response == InProgress(threshold, total, |ToSet(all)|) <==> !Spoiled(C, storageExists, events) && !enough)
            && (response == Failed(BadShares) <==> !Spoiled(C, storageExists, events) && enough && key.None?)
            && (response == Failed(TransitionFailed) <==>
                  !Spoiled(C, storageExists, events) && enough && key.Some? && !C.opens(key.value))
            && (s'.pool.Unsealed? <==> !Spoiled(C, storageExists, events) && enough && key.Some? && C.opens(key.value))
            && (response == Complete <==> s'.pool.Unsealed? && setupSucceeds)
            && (response == Failed(SetupFailed) <==> s'.pool.Unsealed? && !setupSucceeds)
            && (s'.pool.Unsealed? || s'.pool.Sealed?)
            && SharesOf(s'.rows) == (if response.InProgress? then all else []))
  {
    var s := Run(C, storageExists, events);
    var all := SinceClear(C, storageExists, events) + shares;
    RunKeepsInv(C, storageExists, events);
    SpoiledIff(C, storageExists, events);
    AppendedShares(s.rows, shares, s.epoch);
    DistinctCounts(all);
    assert SharesOf([]) == [];
    if s.pool.Sealed? && s.config.Some? { AnswerByShares(C, s, shares, setupSucceeds, Distinct(all)); }
  }

  // The storage becomes unsealed in exactly these requests.
  lemma UnsealsIff(C: Crypto, storageExists: bool, events: seq<Event>, e: Event)
    requires Run(C, storageExists, events).pool.Sealed?
    ensures
      var s := Run(C, storageExists, events);
      After(C, s, e).0.pool.Unsealed? <==>
        && e.UnsealWith? && s.config.Some? && !Spoiled(C, storageExists, events)
        && var all := SinceClear(C, storageExists, events) + e.shares;
           var key := C.recover(Distinct(all), s.config.value.threshold);
           |ToSet(all)| >= s.config.value.threshold && key.Some? && C.opens(key.value)
  {
    if e.UnsealWith? {
      UnsealAnswer(C, storageExists, events, e.shares, e.setupSucceeds);
    } else {
      RunKeepsInv(C, storageExists, events);
    }
  }

  // The storage becomes unsealed only in an unseal request that, with those since the last
  // clear, has brought at least `threshold` distinct shares.
  lemma UnsealedOnlyByEnoughShares(C: Crypto, storageExists: bool, events: seq<Event>, e: Event)
    requires var s := Run(C, storageExists, events); !s.pool.Unsealed? && After(C, s, e).0.pool.Unsealed?
    ensures
      var s := Run(C, storageExists, events);
      && e.UnsealWith? && s.config.Some? && s.config.value.threshold > 0
      && |ToSet(SinceClear(C, storageExists, events) + e.shares)| >= s.config.value.threshold
      && After(C, s, e).0.rows == []
  {
    RunKeepsInv(C, storageExists, events);
    if e.UnsealWith? { UnsealStep(C, Run(C, storageExists, events), e.shares, e.setupSucceeds); }
  }

  // After every request fewer than `threshold` distinct shares are stored, and progress is
  // reported as the number of them.
  lemma ProgressIsExact(C: Crypto, storageExists: bool, events: seq<Event>, e: Event)
    requires Run(C, storageExists, events).config.Some?
    ensures
      var s := Run(C, storageExists, events);
      var (s', response) := After(C, s, e);
      && s'.config == s.config
      && |ToSet(SharesOf(s'.rows))| < s.config.value.threshold
      && (response.InProgress? ==> response.provided == |ToSet(SharesOf(s'.rows))|)
  {
    RunKeepsInv(C, storageExists, events);
    StepKeepsInv(C, Run(C, storageExists, events), e);
    if e.UnsealWith? { UnsealStep(C, Run(C, storageExists, events), e.shares, e.setupSucceeds); }
  }

  // Shares stored before a restart spoil exactly one request: it fails, and its own shares
  // are cleared with the old ones.
  lemma RestartSpoilsOneRequest(C: Crypto, s: State, shares: seq<string>, setupSucceeds: bool)
    requires Inv(s) && s.config.Some? && s.storageExists
    ensures
      var restarted := AfterRestart(s).0;
      var (s', response) := AfterUnseal(C, restarted, shares, setupSucceeds);
      && (response == Failed(UndecryptableShare) <==> s.rows != [])
      && (s.rows != [] ==> s' == restarted.(rows := []))
  {
    var restarted := AfterRestart(s).0;
    var rows := s.rows + Encrypted(shares, restarted.epoch);
    if s.rows != [] { assert rows[0] == s.rows[0]; }
  }

  // ---------- The life of a storage ----------

  function RunFrom(C: Crypto, s: State, events: seq<Event>): State {
    if events == [] then s else After(C, RunFrom(C, s, events[..|events| - 1]), events[|events| - 1]).0
  }

  // Which requests are accepted, and which of them move the pool where.
  lemma PoolTransitions(C: Crypto, s: State, e: Event)
    requires Inv(s)
    ensures
      var (s', response) := After(C, s, e);
      && (response == Initialized <==>
            && e.Initialize? && s.pool.Uninitialized? && s.config.None?
            && 0 < e.threshold <= e.total && (s.storageExists || e.creation.Created?))
      && (response == Initialized ==> s' == s.(pool := Sealed, storageExists := true, config := Some(SealConfig(e.threshold, e.total))))
      && (response == SealedNow ==> s' == s.(pool := Sealed))
      && (response == SealedNow <==> e.Seal? && e.inRoot && s.pool.Unsealed?)
      && (s'.pool.Uninitialized? ==> s.pool.Uninitialized?)
      && (s.pool.Uninitialized? && s'.pool.Sealed? ==> response == Initialized || (e.Restart? && s.storageExists))
      && (s.pool.Sealed? && s'.pool.Unsealed? ==> e.UnsealWith?)
      && (s.pool.Unsealed? && s'.pool.Sealed? ==> response == SealedNow || e.Restart?)
      && (s.pool.Uninitialized? ==> !s'.pool.Unsealed?)
      && (s.config.Some? ==> s'.config == s.config)
      && (s.storageExists ==> s'.storageExists)
  {
    if e.UnsealWith? { UnsealStep(C, s, e.shares, e.setupSucceeds); }
  }

  // A refused request leaves everything as it was, but for a failed creation.
  lemma RefusalsChangeNothing(C: Crypto, s: State, e: Event)
    requires Inv(s) && After(C, s, e).1.Failed? && !e.UnsealWith?
    ensures
      var (s', response) := After(C, s, e);
      if response == Failed(TransitionFailed)
      then s'.pool.Uninitialized? && s'.rows == s.rows && s'.config == Some(SealConfig(e.threshold, e.total))
      else s' == s
  {}

  // What can no longer be initialised never can.
  lemma {:induction false} TooLateStays(C: Crypto, s: State, events: seq<Event>)
    requires Inv(s) && !(s.pool.Uninitialized? && s.config.None?)
    ensures var s' := RunFrom(C, s, events); Inv(s') && !(s'.pool.Uninitialized? && s'.config.None?)
  {
    if events != [] {
      var init, e := events[..|events| - 1], events[|events| - 1];
      TooLateStays(C, s, init);
      StepKeepsInv(C, RunFrom(C, s, init), e);
      PoolTransitions(C, RunFrom(C, s, init), e);
    }
  }

  // Some run from here initialises the storage exactly if that has not been tried yet with
  // parameters that are stored. Restarts do not help.
  lemma CanBeInitializedIff(C: Crypto, s: State)
    requires Inv(s)
    ensures (exists events, e :: After(C, RunFrom(C, s, events), e).1 == Initialized) <==> s.pool.Uninitialized? && s.config.None?
  {
    if s.pool.Uninitialized? && s.config.None? {
      var none: seq<Event>, e := [], Initialize(1, 1, Created);
      assert RunFrom(C, s, none) == s;
      assert After(C, RunFrom(C, s, none), e).1 == Initialized;
    } else {
      forall events, e ensures After(C, RunFrom(C, s, events), e).1 != Initialized {
        TooLateStays(C, s, events);
        PoolTransitions(C, RunFrom(C, s, events), e);
      }
    }
  }

  // A failed initialisation can be repeated with success, at once or in any later run,
  // exactly if it failed on an uninitialised pool because of its parameters. In particular
  // one that fails to create the storage is final: its configuration stays.
  lemma FailedInitializationRepeatableIff(C: Crypto, s: State, total: nat, threshold: nat, creation: Creation)
    requires Inv(s) && AfterInitialize(s, total, threshold, creation).1.Failed?
    ensures
      var s' := AfterInitialize(s, total, threshold, creation).0;
      var repeatable := s.pool.Uninitialized? && s.config.None? && (threshold == 0 || total < threshold);
      && ((exists n, t, c :: AfterInitialize(s', n, t, c).1 == Initialized) <==> repeatable)
      && ((exists events, e :: After(C, RunFrom(C, s', events), e).1 == Initialized) <==> repeatable)
  {
    var s' := AfterInitialize(s, total, threshold, creation).0;
    StepKeepsInv(C, s, Initialize(total, threshold, creation));
    CanBeInitializedIff(C, s');
    if s'.pool.Uninitialized? && s'.config.None? {
      assert AfterInitialize(s', 1, 1, Created).1 == Initialized;
    }
  }

  // No run initialises the storage twice.
  lemma InitializedOnce(C: Crypto, s: State, e: Event, events: seq<Event>, e': Event)
    requires Inv(s) && After(C, s, e).1 == Initialized
    ensures After(C, RunFrom(C, After(C, s, e).0, events), e').1 != Initialized
  {
    StepKeepsInv(C, s, e);
    PoolTransitions(C, s, e);
    CanBeInitializedIff(C, After(C, s, e).0);
  }
}
