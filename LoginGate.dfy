/** The password screen shown before the main window: it counts wrong
    passwords, locks its Unlock button after five of them, and re-enables
    the button when a scheduled reset fires. SHA-256 is not modelled: the
    screen is given the hash function as a value, and the stored credential
    is that function applied to the built-in password. Widgets become
    fields: the entry's text, the error label's text, whether the Unlock
    button is enabled; the success callback and the 30-second timer become
    counters of how often each was invoked or scheduled. */
module LoginGate {
  import opened PyText

  /** The built-in password whose hash the program stores. */
  const Password: string := "kali2003"

  /** Wrong passwords allowed before the button is locked. */
  const MaxAttempts: nat := 5

  const Lockout: string := "Too many attempts. Please wait..."

  /** The state of the screen as a value. */
  datatype Gate = Gate(
    attempts: nat,
    errorText: string,
    unlockEnabled: bool,
    entry: string,
    scheduledResets: nat,
    successCalls: nat)

  const InitialGate: Gate := Gate(0, "", true, "", 0, 0)

  /** The error label after `n` wrong passwords since the last reset. */
  function MessageFor(n: nat): string {
    if n == 0 then ""
    else if n < MaxAttempts then "Incorrect password (" + IntStr(n) + "/5)"
    else Lockout
  }

  /** What a press of Unlock (or Return in the entry) does, given whether the
      entry hashes to the stored credential: a match calls the success
      callback and changes nothing else; a mismatch counts the attempt,
      reports it and clears the entry, and from the fifth attempt on shows
      the lockout text, disables the button and schedules one reset per
      failure. */
  function AfterVerify(g: Gate, matches: bool): (r: Gate)
    ensures matches ==>
      && r.successCalls == g.successCalls + 1
      && r.attempts == g.attempts && r.unlockEnabled == g.unlockEnabled && r.errorText == g.errorText
      && r.entry == g.entry && r.scheduledResets == g.scheduledResets
    ensures !matches ==>
      && r.successCalls == g.successCalls && r.attempts == g.attempts + 1 && r.entry == ""
      && (r.unlockEnabled <==> g.unlockEnabled && g.attempts + 1 < MaxAttempts)
      && r.errorText == MessageFor(r.attempts)
      && r.scheduledResets == g.scheduledResets + (if g.attempts + 1 >= MaxAttempts then 1 else 0)
  {
    if matches then g.(successCalls := g.successCalls + 1)
    else
      var n := g.attempts + 1;
      var g' := g.(attempts := n, errorText := "Incorrect password (" + IntStr(n) + "/5)", entry := "");
      if n >= MaxAttempts then
        g'.(errorText := Lockout, unlockEnabled := false, scheduledResets := g.scheduledResets + 1)
      else g'
  }

  /** What the scheduled reset does when it fires: from any state it leaves
      a consistent screen, and it touches neither the entry nor the
      counters of callbacks and timers. */
  function AfterReset(g: Gate): (r: Gate)
    ensures GateInvariant(r)
    ensures r.entry == g.entry && r.successCalls == g.successCalls && r.scheduledResets == g.scheduledResets
  {
    g.(attempts := 0, errorText := "", unlockEnabled := true)
  }

  /** What the screen keeps true: the button is enabled exactly while fewer
      than five wrong passwords have been counted, the label shows the
      message for the count, and every lockout has scheduled its reset. */
  predicate GateInvariant(g: Gate) {
    && (g.unlockEnabled <==> g.attempts < MaxAttempts)
    && g.errorText == MessageFor(g.attempts)
    && (g.attempts >= MaxAttempts ==> g.scheduledResets >= g.attempts - (MaxAttempts - 1))
  }

  lemma InitialGateValid()
    ensures GateInvariant(InitialGate)
  {
  }

  /** Every transition keeps the invariant. */
  lemma TransitionsKeepInvariant(g: Gate, matches: bool, text: string)
    requires GateInvariant(g)
    ensures GateInvariant(AfterVerify(g, matches))
    ensures GateInvariant(AfterReset(g))
    ensures GateInvariant(g.(entry := text))
  {
  }

  /** A session: each string is typed into the entry and then submitted. */
  function Submit(g: Gate, inputs: seq<string>, hashOf: string -> string, credential: string): Gate
    decreases |inputs|
  {
    if |inputs| == 0 then g
    else
      var typed := g.(entry := inputs[0]);
      Submit(AfterVerify(typed, hashOf(inputs[0]) == credential), inputs[1..], hashOf, credential)
  }

  /** Wrong passwords are counted one by one: after `k` of them the count
      has grown by `k`, the callback has not been called, the button is
      enabled exactly while the count is below five, and the label shows the
      message for the count. */
  lemma {:induction false} WrongPasswordsCounted(g: Gate, inputs: seq<string>, hashOf: string -> string, credential: string)
    requires GateInvariant(g)
    requires forall k :: 0 <= k < |inputs| ==> hashOf(inputs[k]) != credential
    decreases |inputs|
    ensures var g' := Submit(g, inputs, hashOf, credential);
      && g'.attempts == g.attempts + |inputs|
      && g'.successCalls == g.successCalls
      && (g'.unlockEnabled <==> g.attempts + |inputs| < MaxAttempts)
      && g'.errorText == MessageFor(g.attempts + |inputs|)
  {
    if |inputs| > 0 {
      var typed := g.(entry := inputs[0]);
      var g1 := AfterVerify(typed, false);
      assert hashOf(inputs[0]) != credential;
      assert Submit(g, inputs, hashOf, credential) == Submit(g1, inputs[1..], hashOf, credential);
      TransitionsKeepInvariant(g, false, inputs[0]);
      assert g1.attempts == g.attempts + 1 && g1.successCalls == g.successCalls;
      assert GateInvariant(g1) by {
        TransitionsKeepInvariant(typed, false, inputs[0]);
      }
      WrongPasswordsCounted(g1, inputs[1..], hashOf, credential);
    }
  }

  /** From a fresh screen, the fifth wrong password is the one that locks
      the button; four leave it enabled. */
  lemma FifthWrongPasswordLocks(inputs: seq<string>, hashOf: string -> string)
    requires forall k :: 0 <= k < |inputs| ==> hashOf(inputs[k]) != hashOf(Password)
    ensures |inputs| == 4 ==> Submit(InitialGate, inputs, hashOf, hashOf(Password)).unlockEnabled
    ensures |inputs| == 5 ==>
      var g := Submit(InitialGate, inputs, hashOf, hashOf(Password));
      !g.unlockEnabled && g.errorText == Lockout && g.scheduledResets >= 1
  {
    WrongPasswordsCounted(InitialGate, inputs, hashOf, hashOf(Password));
    if |inputs| == 5 {
      var g := Submit(InitialGate, inputs, hashOf, hashOf(Password));
      TransitionsKeepInvariantAlong(InitialGate, inputs, hashOf, hashOf(Password));
      assert GateInvariant(g);
    }
  }

  /** A session keeps the invariant, whatever is typed. */
  lemma {:induction false} TransitionsKeepInvariantAlong(g: Gate, inputs: seq<string>, hashOf: string -> string, credential: string)
    requires GateInvariant(g)
    ensures GateInvariant(Submit(g, inputs, hashOf, credential))
    decreases |inputs|
  {
    if |inputs| > 0 {
      var typed := g.(entry := inputs[0]);
      TransitionsKeepInvariant(g, false, inputs[0]);
      TransitionsKeepInvariant(typed, hashOf(inputs[0]) == credential, inputs[0]);
      TransitionsKeepInvariantAlong(AfterVerify(typed, hashOf(inputs[0]) == credential), inputs[1..], hashOf, credential);
    }
  }

  /** The lock does not stop a submission: Return in the entry still
      verifies while the button is disabled. An entry that hashes to the
      stored credential (the built-in password among them) is accepted
      during a lockout; any other is counted past five, keeps the button
      disabled and schedules one more reset. */
  lemma LockoutStillVerifies(g: Gate, text: string, hashOf: string -> string)
    requires GateInvariant(g) && !g.unlockEnabled
    ensures Submit(g, [Password], hashOf, hashOf(Password)).successCalls == g.successCalls + 1
    ensures hashOf(text) == hashOf(Password) ==>
      Submit(g, [text], hashOf, hashOf(Password)).successCalls == g.successCalls + 1
    ensures hashOf(text) != hashOf(Password) ==>
      var r := Submit(g, [text], hashOf, hashOf(Password));
      && r.attempts == g.attempts + 1 > MaxAttempts && !r.unlockEnabled && r.errorText == Lockout
      && r.scheduledResets == g.scheduledResets + 1 && r.successCalls == g.successCalls
  {
    assert [text][1..] == [];
    assert [Password][1..] == [];
  }

  /** After a reset the count starts again from zero, with the button
      enabled and the label cleared. */
  lemma ResetUnlocks(g: Gate)
    ensures var r := AfterReset(g);
      r.attempts == 0 && r.unlockEnabled && r.errorText == "" && GateInvariant(r)
      && r.entry == g.entry && r.successCalls == g.successCalls
  {
  }

  /** The screen itself: its widgets' state in fields that its handlers
      update in place. */
  class LoginScreen {
    const hashOf: string -> string
    /** The stored credential: the hash of the built-in password. */
    const passwordHash: string
    var attempts: nat
    var errorText: string
    var unlockEnabled: bool
    var entry: string
    var scheduledResets: nat
    var successCalls: nat

    function State(): Gate
      reads this
    {
      Gate(attempts, errorText, unlockEnabled, entry, scheduledResets, successCalls)
    }

    predicate Valid()
      reads this
    {
      GateInvariant(State())
    }

    constructor(hashOf: string -> string)
      ensures this.hashOf == hashOf && passwordHash == hashOf(Password)
      ensures State() == InitialGate && Valid()
    {
      this.hashOf := hashOf;
      passwordHash := hashOf(Password);
      attempts := 0;
      errorText := "";
      unlockEnabled := true;
      entry := "";
      scheduledResets := 0;
      successCalls := 0;
    }

    /** The user types into the password entry. */
    method Type(text: string)
      modifies this
      ensures State() == old(State()).(entry := text)
      ensures old(Valid()) ==> Valid()
    {
      entry := text;
    }

    /** `verify_password`, reached from the Unlock button or from Return in
        the entry. */
    method VerifyPassword()
      modifies this
      ensures State() == AfterVerify(old(State()), hashOf(old(entry)) == passwordHash)
      ensures old(Valid()) ==> Valid()
    {
      var h := hashOf(entry);
      if h == passwordHash {
        successCalls := successCalls + 1;
      } else {
        attempts := attempts + 1;
        errorText := "Incorrect password (" + IntStr(attempts) + "/5)";
        entry := "";
        if attempts >= MaxAttempts {
          errorText := Lockout;
          unlockEnabled := false;
          scheduledResets := scheduledResets + 1;
        }
      }
    }

    /** `reset_attempts`, run by the timer. */
    method ResetAttempts()
      modifies this
      ensures State() == AfterReset(old(State()))
      ensures Valid()
    {
      attempts := 0;
      errorText := "";
      unlockEnabled := true;
    }
  }
}
