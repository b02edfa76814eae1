/** The wallet's background session: decrypted state behind an inactivity lock (background/Background.ts). */
module Wallet {
  import opened Bytes

  const AUTO_LOCK_ALARM_NAME: string := "wire-wallet-auto-lock"
  const AUTO_LOCK_DURATION_MS: int := 15 * 60 * 1000

  datatype KeyPair = KeyPair(id: string, privateKey: string)

  datatype Account = Account(id: string, name: string, keys: seq<string>)

  datatype Active = Active(accountId: string, keyId: string)

  datatype State = State(keys: seq<KeyPair>, accounts: seq<Account>, activeAccount: Option<Active>)

  datatype Message =
    | HAS_VAULT
    | IS_UNLOCKED
    | SETUP(initialState: State, password: string)
    | UNLOCK(password: string)
    | LOCK
    | GET_STATE
    | SAVE_STATE(state: State)
    | GET_ACCOUNTS
    | SIGN_REQUEST(digest: string, accountId: string)
    | UNKNOWN

  datatype Response =
    | Success
    | Exists(found: bool)
    | IsUnlocked(unlocked: bool)
    | StateData(state: State)
    | Accounts(accounts: seq<(string, string)>)
    | Signature(signature: string)
    | Failure(error: string)

  /** A handler waiting for storage, with what it needs to go on. */
  datatype Continuation =
    | VaultLooked
    | SetupSaved(state: State, password: string)
    | VaultLoaded(password: string)
    | StateSaved(state: State, password: string)

  /** How a storage operation ended; a continuation uses the part it asked for. */
  datatype Settled = Fulfilled(state: State, found: bool) | Rejected(error: string)

  /** Signing with a private key's text and a digest's text; none when it throws. */
  type Signer = (string, string) -> Option<string>

  /**
   The module variables, and what surrounds them: the alarm armed in the browser, the alarms that went off
   and are not yet delivered, the handlers waiting for storage.
   */
  datatype Session = Session(
    state: Option<State>,
    password: Option<string>,
    deadline: Option<int>,
    alarm: Option<int>,
    fired: nat,
    pending: seq<Continuation>)

  /** `now` is the clock when a handler starts, `later` when it restarts the timer. */
  datatype Event =
    | Received(message: Message, now: int, later: int)
    | Resumed(index: nat, settled: Settled, now: int)
    | AlarmFires(now: int)
    | AlarmDelivered(name: string, now: int)
    | Restarted

  const START: Session := Session(None, None, None, None, 0, [])

  // ---- What each handler does ----

  function Locked(s: Session): Session {
    s.(state := None, password := None, deadline := None, alarm := None)
  }

  predicate Expired(s: Session, now: int) {
    s.deadline.Some? && now >= s.deadline.value
  }

  function Checked(s: Session, now: int): Session {
    if Expired(s, now) then Locked(s) else s
  }

  function Refreshed(s: Session, now: int): Session {
    s.(deadline := Some(now + AUTO_LOCK_DURATION_MS), alarm := Some(now + AUTO_LOCK_DURATION_MS))
  }

  function FindAccount(accounts: seq<Account>, id: string): (r: Option<Account>)
    ensures r.Some? ==> r.value in accounts && r.value.id == id
    ensures r.None? ==> forall a <- accounts :: a.id != id
  {
    if accounts == [] then None
    else if accounts[0].id == id then Some(accounts[0])
    else FindAccount(accounts[1..], id)
  }

  function FindKey(keys: seq<KeyPair>, id: string): (r: Option<KeyPair>)
    ensures r.Some? ==> r.value in keys && r.value.id == id
    ensures r.None? ==> forall k <- keys :: k.id != id
  {
    if keys == [] then None
    else if keys[0].id == id then Some(keys[0])
    else FindKey(keys[1..], id)
  }

  /** The id of the key an account signs with: its active key, else its first, which it may not have. */
  function ActiveKeyId(state: State, account: Account): Option<string> {
    if state.activeAccount.Some? && state.activeAccount.value.accountId == account.id
      then Some(state.activeAccount.value.keyId)
    else if account.keys == [] then None
    else Some(account.keys[0])
  }

  function Sign(sign: Signer, state: State, digest: string, accountId: string): (r: Response)
    ensures r.Failure? || r.Signature?
  {
    var account := FindAccount(state.accounts, accountId);
    if account.None? then Failure("Account not found")
    else
      var keyId := ActiveKeyId(state, account.value);
      var keyPair := if keyId.None? then None else FindKey(state.keys, keyId.value);
      if keyPair.None? then Failure("Key not found")
      else
        var signature := sign(keyPair.value.privateKey, digest);
        if signature.None? then Failure("Signing failed") else Signature(signature.value)
  }

  function Await(s: Session, c: Continuation): Session {
    s.(pending := s.pending + [c])
  }

  /** A message, after the deadline was checked: the new session and, unless the handler waits, the response. */
  function Handle(sign: Signer, s: Session, m: Message, later: int): (Session, Option<Response>) {
    match m
    case HAS_VAULT => (Await(s, VaultLooked), None)
    case IS_UNLOCKED => (s, Some(IsUnlocked(s.state.Some?)))
    case SETUP(initialState, password) => (Await(s, SetupSaved(initialState, password)), None)
    case UNLOCK(password) => (Await(s, VaultLoaded(password)), None)
    case LOCK => (Locked(s), Some(Success))
    case GET_STATE =>
      if s.state.None? then (s, Some(Failure("Wallet is locked")))
      else (Refreshed(s, later), Some(StateData(s.state.value)))
    case SAVE_STATE(state) =>
      if s.password.None? || s.password.value == "" then (s, Some(Failure("Wallet is locked")))
      else (Await(s.(state := Some(state)), StateSaved(state, s.password.value)), None)
    case GET_ACCOUNTS =>
      if s.state.None? then (s, Some(Failure("Wallet is locked")))
      else
        var accounts := s.state.value.accounts;
        (s, Some(Accounts(seq(|accounts|, i requires 0 <= i < |accounts| => (accounts[i].id, accounts[i].name)))))
    case SIGN_REQUEST(digest, accountId) =>
      if s.state.None? then (s, Some(Failure("Wallet is locked")))
      else
        var r := Sign(sign, s.state.value, digest, accountId);
        (if r.Signature? then Refreshed(s, later) else s, Some(r))
    case UNKNOWN => (s, Some(Failure("Unknown message type")))
  }

  /** A handler going on after its `await`. */
  function Continue(s: Session, c: Continuation, settled: Settled, now: int): (Session, Response) {
    if settled.Rejected? then (s, Failure(if c.VaultLoaded? then "Invalid password" else settled.error))
    else
      match c
      case VaultLooked => (s, Exists(settled.found))
      case SetupSaved(state, password) =>
        (Refreshed(s.(state := Some(state), password := Some(password)), now), Success)
      case VaultLoaded(password) =>
        (Refreshed(s.(state := Some(settled.state), password := Some(password)), now), StateData(settled.state))
      case StateSaved(_, _) => (Refreshed(s, now), Success)
  }

  function HandleAlarm(s: Session, name: string, now: int): Session {
    if name != AUTO_LOCK_ALARM_NAME then s
    else
      var checked := Checked(s, now);
      checked.(alarm := if checked.deadline.Some? then checked.deadline else checked.alarm)
  }

  /** Whether an event can happen. */
  predicate Enabled(s: Session, e: Event) {
    match e
    case Resumed(index, _, _) => index < |s.pending|
    case AlarmFires(now) => s.alarm.Some? && s.alarm.value <= now
    case AlarmDelivered(name, _) => name == AUTO_LOCK_ALARM_NAME ==> s.fired > 0
    case _ => true
  }

  function Step(sign: Signer, s: Session, e: Event): (Session, Option<Response>) {
    if !Enabled(s, e) then (s, None)
    else
      match e
      case Received(m, now, later) => Handle(sign, Checked(s, now), m, later)
      case Resumed(i, settled, now) =>
        var (next, r) := Continue(s.(pending := s.pending[..i] + s.pending[i + 1..]), s.pending[i], settled, now);
        (next, Some(r))
      case AlarmFires(_) => (s.(alarm := None, fired := s.fired + 1), None)
      case AlarmDelivered(name, now) =>
        (HandleAlarm(if name == AUTO_LOCK_ALARM_NAME then s.(fired := s.fired - 1) else s, name, now), None)
      case Restarted => (START.(alarm := s.alarm, fired := s.fired), None)
  }

  function Run(sign: Signer, events: seq<Event>): Session {
    if events == [] then START
    else Step(sign, Run(sign, events[..|events| - 1]), events[|events| - 1]).0
  }

  /** The session before event `i`, and after the last one when `i` is their number. */
  function At(sign: Signer, events: seq<Event>, i: nat): Session {
    Run(sign, events[..if i < |events| then i else |events|])
  }

  lemma AtStep(sign: Signer, events: seq<Event>, i: nat)
    requires i < |events|
    ensures At(sign, events, i + 1) == Step(sign, At(sign, events, i), events[i]).0
  {
    assert events[..i + 1][..i] == events[..i];
  }

  lemma AtEnds(sign: Signer, events: seq<Event>)
    ensures At(sign, events, 0) == START && At(sign, events, |events|) == Run(sign, events)
  {
    assert events[..|events|] == events;
  }

  // ---- The module ----

  class Background {
    var currentState: Option<State>
    var currentPassword: Option<string>
    var lockDeadlineMs: Option<int>
    var alarm: Option<int>
    var fired: nat
    var pending: seq<Continuation>

    function View(): Session
      reads this
    {
      Session(currentState, currentPassword, lockDeadlineMs, alarm, fired, pending)
    }

    constructor ()
      ensures View() == START
    {
      currentState, currentPassword, lockDeadlineMs := None, None, None;
      alarm, fired, pending := None, 0, [];
    }

    method ScheduleLockAlarm(deadlineMs: int)
      modifies `alarm
      ensures alarm == Some(deadlineMs)
    {
      alarm := Some(deadlineMs);
    }

    method ResetLockTimer(now: int)
      modifies `lockDeadlineMs, `alarm
      ensures View() == Refreshed(old(View()), now)
    {
      lockDeadlineMs := Some(now + AUTO_LOCK_DURATION_MS);
      ScheduleLockAlarm(lockDeadlineMs.value);
    }

    method Lock()
      modifies this
      ensures View() == Locked(old(View()))
    {
      currentState := None;
      currentPassword := None;
      lockDeadlineMs := None;
      alarm := None;
    }

    method LockIfExpired(now: int)
      modifies this
      ensures View() == Checked(old(View()), now)
    {
      if lockDeadlineMs.Some? && now >= lockDeadlineMs.value {
        Lock();
      }
    }

    method HandleLockAlarm(name: string, now: int)
      modifies this
      ensures View() == HandleAlarm(old(View()), name, now)
    {
      if name != AUTO_LOCK_ALARM_NAME {
        return;
      }
      LockIfExpired(now);
      if lockDeadlineMs.Some? {
        ScheduleLockAlarm(lockDeadlineMs.value);
      }
    }

    method HandleMessage(sign: Signer, message: Message, now: int, later: int) returns (r: Option<Response>)
      modifies this
      ensures (View(), r) == Handle(sign, Checked(old(View()), now), message, later)
    {
      LockIfExpired(now);
      match message {
        case HAS_VAULT =>
          pending := pending + [VaultLooked];
          r := None;
        case IS_UNLOCKED =>
          r := Some(IsUnlocked(currentState.Some?));
        case SETUP(initialState, password) =>
          pending := pending + [SetupSaved(initialState, password)];
          r := None;
        case UNLOCK(password) =>
          pending := pending + [VaultLoaded(password)];
          r := None;
        case LOCK =>
          Lock();
          r := Some(Success);
        case GET_STATE =>
          if currentState.None? {
            return Some(Failure("Wallet is locked"));
          }
          ResetLockTimer(later);
          r := Some(StateData(currentState.value));
        case SAVE_STATE(state) =>
          if currentPassword.None? || currentPassword.value == "" {
            return Some(Failure("Wallet is locked"));
          }
          currentState := Some(state);
          pending := pending + [StateSaved(state, currentPassword.value)];
          r := None;
        case GET_ACCOUNTS =>
          if currentState.None? {
            return Some(Failure("Wallet is locked"));
          }
          var accounts := currentState.value.accounts;
          r := Some(Accounts(seq(|accounts|, i requires 0 <= i < |accounts| => (accounts[i].id, accounts[i].name))));
        case SIGN_REQUEST(digest, accountId) =>
          r := SignRequest(sign, digest, accountId, later);
        case UNKNOWN =>
          r := Some(Failure("Unknown message type"));
      }
    }

    method SignRequest(sign: Signer, digest: string, accountId: string, later: int) returns (r: Option<Response>)
      modifies `lockDeadlineMs, `alarm
      ensures (View(), r) == Handle(sign, old(View()), SIGN_REQUEST(digest, accountId), later)
    {
      if currentState.None? {
        return Some(Failure("Wallet is locked"));
      }
      var account := FindAccount(currentState.value.accounts, accountId);
      if account.None? {
        return Some(Failure("Account not found"));
      }
      var keyId := ActiveKeyId(currentState.value, account.value);
      var keyPair := if keyId.None? then None else FindKey(currentState.value.keys, keyId.value);
      if keyPair.None? {
        return Some(Failure("Key not found"));
      }
      var signature := sign(keyPair.value.privateKey, digest);
      if signature.None? {
        return Some(Failure("Signing failed"));
      }
      ResetLockTimer(later);
      r := Some(Signature(signature.value));
    }

    /** The handler waiting at `index` goes on when its storage operation settles. */
    method Resume(index: nat, settled: Settled, now: int) returns (r: Response)
      requires index < |pending|
      modifies this
      ensures forall sign :: (View(), Some(r)) == Step(sign, old(View()), Resumed(index, settled, now))
    {
      var c := pending[index];
      pending := pending[..index] + pending[index + 1..];
      if settled.Rejected? {
        return Failure(if c.VaultLoaded? then "Invalid password" else settled.error);
      }
      match c {
        case VaultLooked =>
          r := Exists(settled.found);
        case SetupSaved(state, password) =>
          currentState := Some(state);
          currentPassword := Some(password);
          ResetLockTimer(now);
          r := Success;
        case VaultLoaded(password) =>
          currentState := Some(settled.state);
          currentPassword := Some(password);
          ResetLockTimer(now);
          r := StateData(settled.state);
        case StateSaved(_, _) =>
          ResetLockTimer(now);
          r := Success;
      }
    }
  }

  // ---- What every run keeps ----

  /**
   State is held exactly when a password is; an unlocked session has a deadline; and a deadline
   has its alarm armed, or gone off and about to be delivered.
   */
  predicate Sound(s: Session) {
    && (s.state.Some? <==> s.password.Some?)
    && (s.state.Some? ==> s.deadline.Some?)
    && (s.deadline.Some? ==> s.alarm == s.deadline || (s.alarm.None? && s.fired > 0))
  }

  lemma StepSound(sign: Signer, s: Session, e: Event)
    requires Sound(s)
    ensures Sound(Step(sign, s, e).0)
  {
    hide Sign;
  }

  lemma {:induction false} RunSound(sign: Signer, events: seq<Event>)
    ensures Sound(Run(sign, events))
  {
    if events != [] {
      RunSound(sign, events[..|events| - 1]);
      StepSound(sign, Run(sign, events[..|events| - 1]), events[|events| - 1]);
    }
  }

  // ---- What a run did ----

  /** A SETUP or UNLOCK completes. */
  predicate Opens(s: Session, e: Event) {
    && e.Resumed?
    && e.index < |s.pending|
    && e.settled.Fulfilled?
    && (s.pending[e.index].SetupSaved? || s.pending[e.index].VaultLoaded?)
  }

  /** A SAVE_STATE completes. */
  predicate Saves(s: Session, e: Event) {
    e.Resumed? && e.index < |s.pending| && e.settled.Fulfilled? && s.pending[e.index].StateSaved?
  }

  /** The session ends: a LOCK, anything handled at or after the deadline, or a new service worker. */
  predicate Closes(s: Session, e: Event) {
    || e.Restarted?
    || (e.Received? && (e.message.LOCK? || Expired(s, e.now)))
    || (e.AlarmDelivered? && e.name == AUTO_LOCK_ALARM_NAME && s.fired > 0 && Expired(s, e.now))
  }

  /** The state an event puts in memory. */
  function Writes(s: Session, e: Event): Option<State> {
    if Opens(s, e) then
      Some(if s.pending[e.index].SetupSaved? then s.pending[e.index].state else e.settled.state)
    else if e.Received? && e.message.SAVE_STATE? && !Expired(s, e.now) && s.password.Some? && s.password.value != ""
      then Some(e.message.state)
    else None
  }

  /** The password an event opens the session with. */
  function Unlocks(s: Session, e: Event): Option<string> {
    if !Opens(s, e) then None
    else match s.pending[e.index]
      case SetupSaved(_, password) => Some(password)
      case VaultLoaded(password) => Some(password)
      case _ => None
  }

  /** What a response gives away. */
  predicate Discloses(r: Option<Response>) {
    r.Some? && (r.value.StateData? || r.value.Accounts? || r.value.Signature?)
  }

  /** When the inactivity window restarts. */
  function Refreshes(sign: Signer, s: Session, e: Event): Option<int> {
    if Opens(s, e) || Saves(s, e) then Some(e.now)
    else if e.Received? && !e.message.GET_ACCOUNTS? && Discloses(Step(sign, s, e).1) then Some(e.later)
    else None
  }

  // Each of these at event `i` of a run.

  function Opening(sign: Signer, events: seq<Event>): nat -> bool {
    (i: nat) => i < |events| && Opens(At(sign, events, i), events[i])
  }

  function Closing(sign: Signer, events: seq<Event>): nat -> bool {
    (i: nat) => i < |events| && Closes(At(sign, events, i), events[i])
  }

  function SavingLocked(sign: Signer, events: seq<Event>): nat -> bool {
    (i: nat) => i < |events| && Saves(At(sign, events, i), events[i]) && At(sign, events, i).state.None?
  }

  function Writing(sign: Signer, events: seq<Event>): nat -> Option<State> {
    (i: nat) => if i < |events| then Writes(At(sign, events, i), events[i]) else None
  }

  function Unlocking(sign: Signer, events: seq<Event>): nat -> Option<string> {
    (i: nat) => if i < |events| then Unlocks(At(sign, events, i), events[i]) else None
  }

  function Refreshing(sign: Signer, events: seq<Event>): nat -> Option<int> {
    (i: nat) => if i < |events| then Refreshes(sign, At(sign, events, i), events[i]) else None
  }

  function Is<T(==)>(f: nat -> Option<T>, v: T): nat -> bool {
    (i: nat) => f(i) == Some(v)
  }

  function Any<T>(f: nat -> Option<T>): nat -> bool {
    (i: nat) => f(i).Some?
  }

  function Or(f: nat -> bool, g: nat -> bool): nat -> bool {
    (i: nat) => f(i) || g(i)
  }

  function ResponseAt(sign: Signer, events: seq<Event>, i: nat): Option<Response>
    requires i < |events|
  {
    Step(sign, At(sign, events, i), events[i]).1
  }

  /** At some event `start` happened, and since then `stop` has not. */
  ghost predicate HappenedSince(start: nat -> bool, stop: nat -> bool) {
    exists j: nat :: start(j) && forall i: nat :: j < i ==> !stop(i)
  }

  lemma {:induction false} SinceUpTo(n: nat, holds: nat -> bool, start: nat -> bool, stop: nat -> bool)
    requires !holds(0)
    requires forall i: nat :: i < n ==> (holds(i + 1) <==> start(i) || (holds(i) && !stop(i)))
    ensures holds(n) <==> exists j: nat :: j < n && start(j) && forall i: nat :: j < i < n ==> !stop(i)
  {
    if n > 0 {
      SinceUpTo(n - 1, holds, start, stop);
      assert holds(n - 1 + 1) <==> start(n - 1) || (holds(n - 1) && !stop(n - 1));
    }
  }

  /** Something `start` brings about and `stop` ends holds when it was started and not ended since. */
  lemma Since(n: nat, holds: nat -> bool, start: nat -> bool, stop: nat -> bool)
    requires !holds(0)
    requires forall i: nat :: i < n ==> (holds(i + 1) <==> start(i) || (holds(i) && !stop(i)))
    requires forall i: nat :: i >= n ==> !start(i) && !stop(i)
    ensures holds(n) <==> HappenedSince(start, stop)
  {
    SinceUpTo(n, holds, start, stop);
  }

  // What one event does to the state and to the deadline.

  lemma StepState(sign: Signer, s: Session, e: Event)
    requires Sound(s)
    ensures Step(sign, s, e).0.state ==
            if Writes(s, e).Some? then Writes(s, e) else if Closes(s, e) then None else s.state
    ensures Opens(s, e) ==> Writes(s, e).Some?
    ensures Writes(s, e).Some? ==> !Closes(s, e) && (Opens(s, e) || s.state.Some?)
  {
    hide Sign;
  }

  lemma StepPassword(sign: Signer, s: Session, e: Event)
    requires Sound(s)
    ensures Step(sign, s, e).0.password ==
            if Unlocks(s, e).Some? then Unlocks(s, e) else if Closes(s, e) then None else s.password
  {
    hide Sign;
  }

  lemma StepDeadline(sign: Signer, s: Session, e: Event)
    requires Sound(s)
    ensures Step(sign, s, e).0.deadline ==
            var r := Refreshes(sign, s, e);
            if r.Some? then Some(r.value + AUTO_LOCK_DURATION_MS) else if Closes(s, e) then None else s.deadline
    ensures Refreshes(sign, s, e).Some? ==> !Closes(s, e) && (Opens(s, e) || Saves(s, e) || s.state.Some?)
    ensures Opens(s, e) || Saves(s, e) ==> Refreshes(sign, s, e).Some?
  {
    hide Sign;
  }

  lemma StepAt(sign: Signer, events: seq<Event>, i: nat)
    requires i < |events|
    ensures var s, s' := At(sign, events, i), At(sign, events, i + 1);
            && Sound(s)
            && s' == Step(sign, s, events[i]).0
  {
    hide *;
    AtStep(sign, events, i);
    RunSoundAt(sign, events, i);
  }

  lemma RunSoundAt(sign: Signer, events: seq<Event>, i: nat)
    ensures Sound(At(sign, events, i))
  {
    RunSound(sign, events[..if i < |events| then i else |events|]);
  }

  /** The password that states are saved with is the one the session was last opened with. */
  lemma PasswordSince(sign: Signer, events: seq<Event>, password: string)
    ensures Run(sign, events).password == Some(password) <==>
              HappenedSince(Is(Unlocking(sign, events), password),
                            Or(Closing(sign, events), Any(Unlocking(sign, events))))
  {
    hide Run, Step, At, Opens, Closes, Unlocks, Sound, HappenedSince;
    AtEnds(sign, events);
    var holds := (i: nat) => At(sign, events, i).password == Some(password);
    var start := Is(Unlocking(sign, events), password);
    var stop := Or(Closing(sign, events), Any(Unlocking(sign, events)));
    forall i: nat | i < |events| ensures holds(i + 1) <==> start(i) || (holds(i) && !stop(i)) {
      StepAt(sign, events, i);
      StepPassword(sign, At(sign, events, i), events[i]);
    }
    Since(|events|, holds, start, stop);
  }

  /** The wallet is unlocked exactly when a SETUP or UNLOCK completed and nothing closed the session since. */
  lemma UnlockedSince(sign: Signer, events: seq<Event>)
    ensures Run(sign, events).state.Some? <==> HappenedSince(Opening(sign, events), Closing(sign, events))
  {
    hide Run, Step, At, Opens, Closes, Writes, Sound, HappenedSince;
    AtEnds(sign, events);
    var holds := (i: nat) => At(sign, events, i).state.Some?;
    forall i: nat | i < |events|
      ensures holds(i + 1) <==> Opening(sign, events)(i) || (holds(i) && !Closing(sign, events)(i))
    {
      StepAt(sign, events, i);
      StepState(sign, At(sign, events, i), events[i]);
    }
    Since(|events|, holds, Opening(sign, events), Closing(sign, events));
  }

  /** The state in memory is what was last written, by the session's opening or an accepted SAVE_STATE. */
  lemma StateLastWritten(sign: Signer, events: seq<Event>, state: State)
    ensures Run(sign, events).state == Some(state) <==>
              HappenedSince(Is(Writing(sign, events), state), Or(Closing(sign, events), Any(Writing(sign, events))))
  {
    hide Run, Step, At, Opens, Closes, Writes, Sound, HappenedSince;
    AtEnds(sign, events);
    var holds := (i: nat) => At(sign, events, i).state == Some(state);
    var start, stop := Is(Writing(sign, events), state), Or(Closing(sign, events), Any(Writing(sign, events)));
    forall i: nat | i < |events| ensures holds(i + 1) <==> start(i) || (holds(i) && !stop(i)) {
      StepAt(sign, events, i);
      StepState(sign, At(sign, events, i), events[i]);
    }
    Since(|events|, holds, start, stop);
  }

  /** The deadline is 15 minutes after the window last restarted, while nothing closed the session since. */
  lemma DeadlineSince(sign: Signer, events: seq<Event>, t: int)
    ensures Run(sign, events).deadline == Some(t + 15 * 60 * 1000) <==>
              HappenedSince(Is(Refreshing(sign, events), t),
                            Or(Closing(sign, events), Any(Refreshing(sign, events))))
  {
    hide Run, Step, At, Opens, Closes, Refreshes, Sound, HappenedSince;
    AtEnds(sign, events);
    var holds := (i: nat) => At(sign, events, i).deadline == Some(t + AUTO_LOCK_DURATION_MS);
    var start, stop := Is(Refreshing(sign, events), t), Or(Closing(sign, events), Any(Refreshing(sign, events)));
    forall i: nat | i < |events| ensures holds(i + 1) <==> start(i) || (holds(i) && !stop(i)) {
      StepAt(sign, events, i);
      StepDeadline(sign, At(sign, events, i), events[i]);
    }
    Since(|events|, holds, start, stop);
  }

  /** Only an opening, or a message that finds the session open and before its deadline, gives anything away. */
  lemma StepDiscloses(sign: Signer, s: Session, e: Event)
    requires Sound(s) && Discloses(Step(sign, s, e).1)
    ensures !Closes(s, e)
    ensures Opens(s, e) || (e.Received? && s.state.Some? && s.deadline.Some? && e.now < s.deadline.value)
  {
    hide Sign, Refreshed;
  }

  /**
   Nothing is given away outside a session: at the event that does it the deadline has not come,
   and a SETUP or UNLOCK completed, at that event or before, with nothing closing the session since.
   */
  lemma DisclosureInSession(sign: Signer, events: seq<Event>, k: nat)
    requires k < |events| && Discloses(ResponseAt(sign, events, k))
    ensures Opening(sign, events)(k) ||
            (events[k].Received? && exists d :: At(sign, events, k).deadline == Some(d) && events[k].now < d)
    ensures HappenedSince(Opening(sign, events[..k + 1]), Closing(sign, events[..k + 1]))
  {
    hide Run, Step, At, Opens, Closes, Writes, Sound, Discloses, HappenedSince;
    StepAt(sign, events, k);
    var s := At(sign, events, k);
    StepDiscloses(sign, s, events[k]);
    StepState(sign, s, events[k]);
    UnlockedSince(sign, events[..k + 1]);
    AtRun(sign, events, k + 1);
  }

  lemma AtRun(sign: Signer, events: seq<Event>, k: nat)
    requires k <= |events|
    ensures At(sign, events, k) == Run(sign, events[..k])
  {
  }

  /** The first account of that id, and the first key of that. */
  predicate FirstAccount(state: State, id: string, i: nat) {
    i < |state.accounts| && state.accounts[i].id == id && forall j :: 0 <= j < i ==> state.accounts[j].id != id
  }

  predicate FirstKey(state: State, id: string, i: nat) {
    i < |state.keys| && state.keys[i].id == id && forall j :: 0 <= j < i ==> state.keys[j].id != id
  }

  /** The active key signs for the active account and no other; the others' first key signs for them. */
  predicate SignsFor(state: State, account: Account, keyId: string) {
    if state.activeAccount.Some? && state.activeAccount.value.accountId == account.id
      then keyId == state.activeAccount.value.keyId
    else account.keys != [] && keyId == account.keys[0]
  }

  lemma {:induction false} FoundAccount(accounts: seq<Account>, id: string, i: nat)
    requires i <= |accounts| && (forall j :: 0 <= j < i ==> accounts[j].id != id)
    requires i < |accounts| ==> accounts[i].id == id
    ensures FindAccount(accounts, id) == if i < |accounts| then Some(accounts[i]) else None
  {
    if i > 0 {
      FoundAccount(accounts[1..], id, i - 1);
    }
  }

  lemma {:induction false} FoundKey(keys: seq<KeyPair>, id: string, i: nat)
    requires i <= |keys| && (forall j :: 0 <= j < i ==> keys[j].id != id)
    requires i < |keys| ==> keys[i].id == id
    ensures FindKey(keys, id) == if i < |keys| then Some(keys[i]) else None
  {
    if i > 0 {
      FoundKey(keys[1..], id, i - 1);
    }
  }

  /** Where there is no such account, and where its signing key is missing, is just where signing is refused. */
  lemma SignRefused(sign: Signer, state: State, digest: string, accountId: string)
    ensures Sign(sign, state, digest, accountId) == Failure("Account not found")
            <==> forall i: nat :: !FirstAccount(state, accountId, i)
    ensures Sign(sign, state, digest, accountId) == Failure("Key not found")
            <==> exists i: nat :: FirstAccount(state, accountId, i) &&
                   forall k <- state.keys :: !SignsFor(state, state.accounts[i], k.id)
  {
    var account := FindAccount(state.accounts, accountId);
    forall i: nat | FirstAccount(state, accountId, i) ensures account == Some(state.accounts[i]) {
      FoundAccount(state.accounts, accountId, i);
    }
    if account.Some? {
      var i := FirstOf(state.accounts, accountId);
      assert FirstAccount(state, accountId, i);
    }
  }

  lemma {:induction false} FirstOf(accounts: seq<Account>, id: string) returns (i: nat)
    requires FindAccount(accounts, id).Some?
    ensures i < |accounts| && accounts[i].id == id && forall j :: 0 <= j < i ==> accounts[j].id != id
  {
    i := 0;
    if accounts[0].id != id {
      var rest := FirstOf(accounts[1..], id);
      i := rest + 1;
      assert forall j :: 0 < j < i ==> accounts[j] == accounts[1..][j - 1];
    }
  }

  /** Otherwise it is that key, and it alone, whose signature of the digest is the answer. */
  lemma SignedBy(sign: Signer, state: State, digest: string, accountId: string, i: nat, n: nat)
    requires FirstAccount(state, accountId, i) && n < |state.keys|
    requires FirstKey(state, state.keys[n].id, n) && SignsFor(state, state.accounts[i], state.keys[n].id)
    ensures Sign(sign, state, digest, accountId)
            == match sign(state.keys[n].privateKey, digest)
               case Some(signature) => Signature(signature)
               case None => Failure("Signing failed")
  {
    FoundAccount(state.accounts, accountId, i);
    FoundKey(state.keys, state.keys[n].id, n);
  }

  /** What is given away is what memory holds: the state, its accounts, or a signature by the account's own key. */
  lemma DisclosedData(sign: Signer, s: Session, e: Event)
    requires Sound(s) && e.Received? && Discloses(Step(sign, s, e).1)
    ensures s.state.Some?
    ensures var r := Step(sign, s, e).1.value;
            && (r.StateData? ==> e.message.GET_STATE? && r.state == s.state.value)
            && (r.Accounts? ==>
                  && e.message.GET_ACCOUNTS? && |r.accounts| == |s.state.value.accounts|
                  && forall i :: 0 <= i < |r.accounts| ==>
                       var a := s.state.value.accounts[i]; r.accounts[i] == (a.id, a.name))
            && (r.Signature? ==>
                  && e.message.SIGN_REQUEST?
                  && exists a, k ::
                       && a in s.state.value.accounts && a.id == e.message.accountId
                       && k in s.state.value.keys && SignsFor(s.state.value, a, k.id)
                       && sign(k.privateKey, e.message.digest) == Some(r.signature))
  {
    if e.message.SIGN_REQUEST? {
      var state := s.state.value;
      var a := FindAccount(state.accounts, e.message.accountId).value;
      var k := FindKey(state.keys, ActiveKeyId(state, a).value).value;
      assert a in state.accounts && k in state.keys;
    }
  }

  /** What is asked of a wallet that is locked is refused, and only then: saving goes by the password. */
  lemma LockedRefuses(sign: Signer, s: Session, m: Message, later: int)
    requires Sound(s)
    ensures m.GET_STATE? || m.GET_ACCOUNTS? || m.SIGN_REQUEST? ==>
              (Handle(sign, s, m, later).1 == Some(Failure("Wallet is locked")) <==> s.state.None?)
    ensures m.SAVE_STATE? ==>
              (Handle(sign, s, m, later).1 == Some(Failure("Wallet is locked"))
               <==> s.password == None || s.password == Some(""))
    ensures m.IS_UNLOCKED? ==> Handle(sign, s, m, later) == (s, Some(IsUnlocked(s.state.Some?)))
  {
    if m.SIGN_REQUEST? && s.state.Some? {
      SignAnswers(sign, s.state.value, m.digest, m.accountId);
    }
  }

  lemma SignAnswers(sign: Signer, state: State, digest: string, accountId: string)
    ensures Sign(sign, state, digest, accountId) != Failure("Wallet is locked")
  {
    assert "Wallet is locked"[0] == 'W' && "Account not found"[0] == 'A';
    assert "Key not found"[0] == 'K' && "Signing failed"[0] == 'S';
  }

  /** What waits for storage is exactly what the message gave, a save with the password of the session. */
  lemma WaitsWith(sign: Signer, s: Session, m: Message, later: int)
    ensures var (next, r) := Handle(sign, s, m, later);
            && (r.None? <==> m.HAS_VAULT? || m.SETUP? || m.UNLOCK? ||
                             (m.SAVE_STATE? && s.password.Some? && s.password.value != ""))
            && (r.Some? ==> next.pending == s.pending)
            && (r.None? ==> |next.pending| == |s.pending| + 1 && s.pending <= next.pending)
            && (r.None? ==>
                  match next.pending[|s.pending|]
                  case VaultLooked => m.HAS_VAULT?
                  case SetupSaved(state, password) => m == SETUP(state, password)
                  case VaultLoaded(password) => m == UNLOCK(password)
                  case StateSaved(state, password) => m == SAVE_STATE(state) && s.password == Some(password))
  {
    hide Sign;
  }

  /** When storage fails the session is as it was, but for what waited. */
  lemma RejectedChangesNothing(sign: Signer, s: Session, i: nat, error: string, now: int)
    requires i < |s.pending|
    ensures var (next, r) := Step(sign, s, Resumed(i, Rejected(error), now));
            && next == s.(pending := s.pending[..i] + s.pending[i + 1..])
            && r == Some(Failure(if s.pending[i].VaultLoaded? then "Invalid password" else error))
  {
  }

  /** When it succeeds an UNLOCK answers with the state it put in memory, and a look at the vault changes nothing. */
  lemma FulfilledAnswers(sign: Signer, s: Session, i: nat, state: State, found: bool, now: int)
    requires i < |s.pending|
    ensures var (next, r) := Step(sign, s, Resumed(i, Fulfilled(state, found), now));
            && next.pending == s.pending[..i] + s.pending[i + 1..]
            && (s.pending[i].VaultLoaded? <==> r.Some? && r.value.StateData?)
            && (s.pending[i].VaultLoaded? ==> next.state == Some(state) && r == Some(StateData(state)))
            && (s.pending[i].VaultLooked? ==> next == s.(pending := next.pending) && r == Some(Exists(found)))
            && (s.pending[i].SetupSaved? || s.pending[i].StateSaved? ==> r == Some(Success))
  {
  }

  // ---- A deadline without a session ----

  /**
   A locked wallet should have no deadline, but it has one exactly when a SAVE_STATE completed while it was
   locked, and it was neither opened nor closed since.
   */
  lemma DeadlineWhileLocked(sign: Signer, events: seq<Event>)
    ensures Run(sign, events).deadline.Some? && Run(sign, events).state.None? <==>
              HappenedSince(SavingLocked(sign, events), Or(Opening(sign, events), Closing(sign, events)))
  {
    hide Run, Step, At, Opens, Closes, Saves, Writes, Refreshes, Sound, HappenedSince;
    AtEnds(sign, events);
    var holds := (i: nat) => At(sign, events, i).deadline.Some? && At(sign, events, i).state.None?;
    var start, stop := SavingLocked(sign, events), Or(Opening(sign, events), Closing(sign, events));
    forall i: nat | i < |events| ensures holds(i + 1) <==> start(i) || (holds(i) && !stop(i)) {
      StepAt(sign, events, i);
      StepState(sign, At(sign, events, i), events[i]);
      StepDeadline(sign, At(sign, events, i), events[i]);
      SavesWritesNothing(At(sign, events, i), events[i]);
    }
    Since(|events|, holds, start, stop);
  }

  lemma SavesWritesNothing(s: Session, e: Event)
    ensures Saves(s, e) ==> Writes(s, e).None? && !Closes(s, e)
    ensures Sound(s) && s.state.None? ==> (Writes(s, e).Some? <==> Opens(s, e))
    ensures Sound(s) && s.state.Some? ==> s.deadline.Some?
  {
  }

  lemma RunStep(sign: Signer, events: seq<Event>, e: Event)
    ensures Run(sign, events + [e]) == Step(sign, Run(sign, events), e).0
  {
    assert (events + [e])[..|events|] == events;
  }

  /** Such a run: the save of an unlocked wallet is still under way when the wallet is locked. */
  lemma LateSave(sign: Signer, state: State)
    ensures var saved := Fulfilled(state, true);
            var events := [Received(SETUP(state, "pw"), 0, 0)] + [Resumed(0, saved, 1)]
                          + [Received(SAVE_STATE(state), 2, 2)] + [Received(LOCK, 3, 3)] + [Resumed(0, saved, 4)];
            && Run(sign, events).state.None?
            && Run(sign, events).deadline == Some(4 + AUTO_LOCK_DURATION_MS)
  {
    var saved := Fulfilled(state, true);
    var e1 := [Received(SETUP(state, "pw"), 0, 0)];
    var e2 := e1 + [Resumed(0, saved, 1)];
    var e3 := e2 + [Received(SAVE_STATE(state), 2, 2)];
    var e4 := e3 + [Received(LOCK, 3, 3)];
    RunStep(sign, [], e1[0]);
    RunStep(sign, e1, Resumed(0, saved, 1));
    RunStep(sign, e2, Received(SAVE_STATE(state), 2, 2));
    RunStep(sign, e3, Received(LOCK, 3, 3));
    RunStep(sign, e4, Resumed(0, saved, 4));
    assert [] + [e1[0]] == e1;
  }
}
