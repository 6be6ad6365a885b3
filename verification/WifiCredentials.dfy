/**
  The cell of src/wifi_prov.rs that pairs an SSID with a password, written by two BLE
  characteristics and polled by the provisioning loop, in any interleaving.
 */
module WifiCredentials {
  import opened Wrappers

  datatype Credentials = Credentials(ssid: string, password: string)

  datatype PendingState =
    | Complete(credentials: Credentials)
    | WaitingForPassword(ssid: string)
    | WaitingForSsid
    | Empty

  datatype Cell = Cell(ssid: Option<string>, password: Option<string>)

  class PendingWifiCredentials {
    var ssid: Option<string>
    var password: Option<string>

    function View(): Cell
      reads this
    {
      Cell(ssid, password)
    }

    constructor ()
      ensures View() == Cell(None, None)
    {
      ssid, password := None, None;
    }

    method SetSsid(newSsid: string)
      modifies this
      ensures View() == After(old(View()), WriteSsid(newSsid))
    {
      ssid := Some(newSsid);
      password := None;
    }

    method SetPassword(newPassword: string)
      modifies this
      ensures View() == After(old(View()), WritePassword(newPassword))
    {
      password := Some(newPassword);
    }

    method TakeComplete() returns (taken: Option<Credentials>)
      modifies this
      ensures View() == After(old(View()), Poll)
      ensures taken.Some? <==> old(ssid).Some? && old(password).Some?
      ensures taken.Some? ==> taken.value == Credentials(old(ssid).value, old(password).value)
    {
      if ssid.None? || password.None? {
        return None;
      }
      taken := Some(Credentials(ssid.value, password.value));
      ssid, password := None, None;
    }

    /** `next_pending_credentials_state`, under the lock. */
    method NextPendingCredentialsState() returns (state: PendingState)
      modifies this
      ensures state == Polled(old(View())) && View() == After(old(View()), Poll)
    {
      var taken := TakeComplete();
      if taken.Some? {
        return Complete(taken.value);
      }
      if ssid.Some? {
        return WaitingForPassword(ssid.value);
      }
      if password.Some? {
        return WaitingForSsid;
      }
      return Empty;
    }
  }

  // ---------- The cell over whole histories ----------

  datatype Op = WriteSsid(ssid: string) | WritePassword(password: string) | Poll

  function Polled(c: Cell): PendingState {
    match (c.ssid, c.password)
    case (Some(s), Some(p)) => Complete(Credentials(s, p))
    case (Some(s), None) => WaitingForPassword(s)
    case (None, Some(_)) => WaitingForSsid
    case (None, None) => Empty
  }

  function After(c: Cell, op: Op): Cell {
    match op
    case WriteSsid(s) => Cell(Some(s), None)
    case WritePassword(p) => c.(password := Some(p))
    case Poll => if Polled(c).Complete? then Cell(None, None) else c
  }

  /** The cell after the first `n` operations. */
  function CellAt(ops: seq<Op>, n: nat): Cell
    requires n <= |ops|
  {
    if n == 0 then Cell(None, None) else After(CellAt(ops, n - 1), ops[n - 1])
  }

  /** The poll at `i` takes a complete pair. */
  predicate TakesAt(ops: seq<Op>, i: nat)
    requires i < |ops|
  {
    ops[i] == Poll && Polled(CellAt(ops, i)).Complete?
  }

  /** Nothing after `i` and before `n` starts a new pair or takes one. */
  predicate PairOpenSince(ops: seq<Op>, i: int, n: nat)
    requires -1 <= i && n <= |ops|
  {
    forall k :: i < k < n ==> !ops[k].WriteSsid? && !TakesAt(ops, k)
  }

  /** The latest SSID write, with no take since. */
  predicate LatestSsid(ops: seq<Op>, n: nat, i: nat, s: string)
    requires n <= |ops|
  {
    i < n && ops[i] == WriteSsid(s) && PairOpenSince(ops, i, n)
  }

  /** The latest password write, with no SSID write and no take since. */
  predicate LatestPassword(ops: seq<Op>, n: nat, j: nat, p: string)
    requires n <= |ops|
  {
    j < n && ops[j] == WritePassword(p) && PairOpenSince(ops, j, n) && forall k :: j < k < n ==> !ops[k].WritePassword?
  }

  /** The cell's SSID is the latest one written. */
  lemma {:induction false} SsidIsLatest(ops: seq<Op>, n: nat) returns (i: nat)
    requires n <= |ops| && CellAt(ops, n).ssid.Some?
    ensures LatestSsid(ops, n, i, CellAt(ops, n).ssid.value)
  {
    if ops[n - 1].WriteSsid? {
      i := n - 1;
    } else {
      i := SsidIsLatest(ops, n - 1);
      assert !TakesAt(ops, n - 1);
    }
  }

  lemma {:induction false} LatestSsidIsHeld(ops: seq<Op>, n: nat, i: nat, s: string)
    requires n <= |ops| && LatestSsid(ops, n, i, s)
    ensures CellAt(ops, n).ssid == Some(s)
  {
    if i < n - 1 {
      assert !ops[n - 1].WriteSsid? && !TakesAt(ops, n - 1);
      LatestSsidIsHeld(ops, n - 1, i, s);
    }
  }

  /** The cell's password is the latest one written, after the last SSID. */
  lemma {:induction false} PasswordIsLatest(ops: seq<Op>, n: nat) returns (j: nat)
    requires n <= |ops| && CellAt(ops, n).password.Some?
    ensures LatestPassword(ops, n, j, CellAt(ops, n).password.value)
  {
    if ops[n - 1].WritePassword? {
      j := n - 1;
    } else {
      j := PasswordIsLatest(ops, n - 1);
      assert !ops[n - 1].WriteSsid? && !TakesAt(ops, n - 1);
    }
  }

  lemma {:induction false} LatestPasswordIsHeld(ops: seq<Op>, n: nat, j: nat, p: string)
    requires n <= |ops| && LatestPassword(ops, n, j, p)
    ensures CellAt(ops, n).password == Some(p)
  {
    if j < n - 1 {
      assert !ops[n - 1].WriteSsid? && !TakesAt(ops, n - 1) && !ops[n - 1].WritePassword?;
      LatestPasswordIsHeld(ops, n - 1, j, p);
    }
  }

  /** The SSID at `i` and the password at `j` make the pair that a poll at `n` would take. */
  ghost predicate PairWritten(ops: seq<Op>, n: nat, s: string, p: string)
    requires n <= |ops|
  {
    exists i: nat, j: nat :: i < j && LatestSsid(ops, n, i, s) && LatestPassword(ops, n, j, p)
  }

  /**
    A poll takes (s, p) exactly when s is the latest SSID written and p the latest password, the
    password written after that SSID, and nothing taken since either: credentials are never mixed.
   */
  lemma CredentialsNeverMixed(ops: seq<Op>, n: nat, s: string, p: string)
    requires n < |ops| && ops[n] == Poll
    ensures Polled(CellAt(ops, n)) == Complete(Credentials(s, p)) <==> PairWritten(ops, n, s, p)
  {
    if Polled(CellAt(ops, n)) == Complete(Credentials(s, p)) {
      var i := SsidIsLatest(ops, n);
      var j := PasswordIsLatest(ops, n);
      assert i < j;
    }
    if i: nat, j: nat :| i < j && LatestSsid(ops, n, i, s) && LatestPassword(ops, n, j, p) {
      LatestSsidIsHeld(ops, n, i, s);
      LatestPasswordIsHeld(ops, n, j, p);
    }
  }

  /** A password written before an SSID is dropped: the poll that follows waits for another one. */
  lemma EarlyPasswordUnused(ops: seq<Op>, n: nat, j: nat, i: nat)
    requires j < i < n <= |ops| && ops[j].WritePassword? && ops[i].WriteSsid?
    ensures forall p :: !LatestPassword(ops, n, j, p)
    ensures Polled(CellAt(ops, i + 1)) == WaitingForPassword(ops[i].ssid)
  {
  }

  ghost predicate SomeSsid(ops: seq<Op>, n: nat)
    requires n <= |ops|
  {
    exists i: nat, s :: LatestSsid(ops, n, i, s)
  }

  ghost predicate SomePassword(ops: seq<Op>, n: nat)
    requires n <= |ops|
  {
    exists j: nat, p :: LatestPassword(ops, n, j, p)
  }

  /** What is open after `n` operations is what the cell holds. */
  lemma HeldExactly(ops: seq<Op>, n: nat)
    requires n <= |ops|
    ensures CellAt(ops, n).ssid.Some? <==> SomeSsid(ops, n)
    ensures CellAt(ops, n).password.Some? <==> SomePassword(ops, n)
  {
    if CellAt(ops, n).ssid.Some? {
      var i := SsidIsLatest(ops, n);
    }
    if i: nat, s :| LatestSsid(ops, n, i, s) {
      LatestSsidIsHeld(ops, n, i, s);
    }
    if CellAt(ops, n).password.Some? {
      var j := PasswordIsLatest(ops, n);
    }
    if j: nat, p :| LatestPassword(ops, n, j, p) {
      LatestPasswordIsHeld(ops, n, j, p);
    }
  }

  /** Over every interleaving, what a poll that takes nothing says it is waiting for is what has not been written. */
  lemma WaitsForWhatIsMissing(ops: seq<Op>, n: nat)
    requires n < |ops| && ops[n] == Poll
    ensures var state := Polled(CellAt(ops, n));
      && (state.Complete? <==> SomeSsid(ops, n) && SomePassword(ops, n))
      && (state.WaitingForPassword? <==> SomeSsid(ops, n) && !SomePassword(ops, n))
      && (state.WaitingForSsid? <==> !SomeSsid(ops, n) && SomePassword(ops, n))
      && (state.Empty? <==> !SomeSsid(ops, n) && !SomePassword(ops, n))
      && (state.WaitingForPassword? ==> exists i: nat :: LatestSsid(ops, n, i, state.ssid))
  {
    HeldExactly(ops, n);
    if CellAt(ops, n).ssid.Some? {
      var i := SsidIsLatest(ops, n);
    }
  }
}
