/**
  Installer grants of an installation: a token is issued with a number of downloads and a lifetime, and
  each download consumes one. Digests stand for the tokens themselves; times are in milliseconds.
 */
module InstallerGrants {
  import opened Wrappers

  type Token = nat

  datatype Artifact = Artifact(id: string, sha256: string)

  /** What the installation record holds about its installer. */
  datatype Item = Item(
    artifact: Option<Artifact>, token: Option<Token>, expiresAt: int, remaining: int,
    lastUsedAt: Option<int>, usedAt: Option<int>)

  const DEFAULT_MAX_DOWNLOADS := 3

  /** `None` is no number at all; zero counts as none. */
  function Granted(maxDownloads: Option<int>): (n: int)
    ensures 1 <= n <= 10
    ensures maxDownloads.None? || maxDownloads.value == 0 ==> n == 3
    ensures maxDownloads.Some? && 1 <= maxDownloads.value <= 10 ==> n == maxDownloads.value
    ensures maxDownloads.Some? && maxDownloads.value < 0 ==> n == 1
    ensures maxDownloads.Some? && maxDownloads.value > 10 ==> n == 10
  {
    var asked := if maxDownloads.None? || maxDownloads.value == 0 then DEFAULT_MAX_DOWNLOADS else maxDownloads.value;
    if asked < 1 then 1 else if asked > 10 then 10 else asked
  }

  predicate Active(item: Item, now: int) { item.token.Some? && item.remaining >= 1 && item.expiresAt > now }

  /** `valid` says whether the artifact in question passes the identity, digest and address checks. */
  datatype Op =
    | Issue(now: int, ttl: int, maxDownloads: Option<int>, artifact: Artifact, valid: bool,
            rotateArtifact: bool, rotateToken: bool, createToken: bool, token: Token)
    | Download(now: int, token: Token, scriptBuilt: bool)

  predicate Binds(item: Item, op: Op)
    requires op.Issue?
  {
    op.valid && (op.rotateArtifact || item.artifact.None?)
  }

  /** The operation hands out a new token. */
  predicate Issues(item: Item, op: Op) {
    op.Issue? && op.valid && op.createToken && (op.rotateToken || !Active(item, op.now))
  }

  /** The operation is a download that succeeds. */
  predicate Served(item: Item, op: Op) {
    op.Download? && Active(item, op.now) && item.token == Some(op.token) && op.scriptBuilt
  }

  function Next(item: Item, op: Op): Item {
    match op
    case Issue(now, ttl, maxDownloads, artifact, _, _, _, _, token) =>
      var bound := if Binds(item, op) then item.(artifact := Some(artifact)) else item;
      if Issues(item, op) then Item(bound.artifact, Some(token), now + ttl, Granted(maxDownloads), None, None) else bound
    case Download(now, _, _) =>
      if !Served(item, op) then item
      else
        item.(remaining := item.remaining - 1, lastUsedAt := Some(now),
              usedAt := if item.remaining == 1 then Some(now) else item.usedAt)
  }

  class Installation {
    var artifact: Option<Artifact>
    var token: Option<Token>
    var expiresAt: int
    var remaining: int
    var lastUsedAt: Option<int>
    var usedAt: Option<int>

    function View(): Item
      reads this
    {
      Item(artifact, token, expiresAt, remaining, lastUsedAt, usedAt)
    }

    constructor ()
      ensures View() == Initial()
    {
      artifact, token, expiresAt, remaining, lastUsedAt, usedAt := None, None, 0, 0, None, None;
    }

    /** `issueInstallerGrant`; the result is the new token, or whether it throws. */
    method IssueGrant(op: Op) returns (ok: bool, issued: Option<Token>)
      requires op.Issue?
      modifies this
      ensures View() == Next(old(View()), op)
      ensures ok == op.valid
      ensures issued == if Issues(old(View()), op) then Some(op.token) else None
    {
      if !op.valid {
        return false, None;
      }
      if op.rotateArtifact || artifact.None? {
        artifact := Some(op.artifact);
      }
      issued := None;
      if op.createToken && (op.rotateToken || !Active(View(), op.now)) {
        issued := Some(op.token);
        token := Some(op.token);
        expiresAt := op.now + op.ttl;
        remaining := Granted(op.maxDownloads);
        lastUsedAt, usedAt := None, None;
      }
      return true, issued;
    }

    method ConsumeDownload(now: int) returns (left: Option<int>)
      modifies this
      ensures !Active(old(View()), now) ==> left == None && View() == old(View())
      ensures Active(old(View()), now) ==> left == Some(remaining)
      ensures Active(old(View()), now) ==> View() == old(View()).(
             remaining := old(remaining) - 1, lastUsedAt := Some(now),
             usedAt := if old(remaining) == 1 then Some(now) else old(usedAt))
    {
      if !Active(View(), now) {
        return None;
      }
      remaining := remaining - 1;
      lastUsedAt := Some(now);
      if remaining == 0 {
        usedAt := Some(now);
      }
      return Some(remaining);
    }

    /** `handleQuickInstaller`: whether the script is served. */
    method QuickInstall(op: Op) returns (served: bool)
      requires op.Download?
      modifies this
      ensures served == Served(old(View()), op)
      ensures View() == Next(old(View()), op)
    {
      if !Active(View(), op.now) || token != Some(op.token) {
        return false;
      }
      if !op.scriptBuilt {
        return false;
      }
      var left := ConsumeDownload(op.now);
      return left.Some?;
    }
  }

  // ---------------------------------------------------------------------------------------------
  // Runs
  // ---------------------------------------------------------------------------------------------

  function Initial(): Item { Item(None, None, 0, 0, None, None) }

  function After(ops: seq<Op>): Item {
    if ops == [] then Initial() else Next(After(ops[..|ops| - 1]), ops[|ops| - 1])
  }

  predicate IssuesAt(ops: seq<Op>, i: nat)
    requires i < |ops|
  {
    Issues(After(ops[..i]), ops[i])
  }

  predicate ServedAt(ops: seq<Op>, i: nat)
    requires i < |ops|
  {
    Served(After(ops[..i]), ops[i])
  }

  /** Operation `i` handed out the token in force after all of them. */
  predicate InForce(ops: seq<Op>, i: nat) {
    i < |ops| && IssuesAt(ops, i) && forall j: nat | i < j < |ops| :: !IssuesAt(ops, j)
  }

  /** How many of the operations from `from` on were served with the token. */
  function Downloads(ops: seq<Op>, token: Token, from: nat): (n: nat)
  {
    if |ops| <= from then 0
    else
      var last := |ops| - 1;
      Downloads(ops[..last], token, from) + if ServedAt(ops, last) && ops[last].token == token then 1 else 0
  }

  /** Tokens are drawn at random: no two issues hand out the same one. */
  predicate FreshTokens(ops: seq<Op>) {
    forall i, j | 0 <= i < j < |ops| && ops[i].Issue? && ops[j].Issue? :: ops[i].token != ops[j].token
  }

  lemma Earlier(ops: seq<Op>, n: nat, i: nat)
    requires i < n <= |ops|
    ensures ops[..n][i] == ops[i] && IssuesAt(ops[..n], i) == IssuesAt(ops, i) && ServedAt(ops[..n], i) == ServedAt(ops, i)
  {
    assert ops[..n][..i] == ops[..i];
  }

  /** The record remembers the last issue, and how much of its grant is left. */
  predicate Remembers(ops: seq<Op>, i: nat)
    requires i < |ops| && ops[i].Issue?
  {
    var item := After(ops);
    && item.token == Some(ops[i].token)
    && item.expiresAt == ops[i].now + ops[i].ttl
    && item.remaining == Granted(ops[i].maxDownloads) - Downloads(ops, ops[i].token, i)
    && item.remaining >= 0
  }

  lemma {:induction false} InForceIsRemembered(ops: seq<Op>, i: nat)
    requires InForce(ops, i)
    ensures Remembers(ops, i)
  {
    var n := |ops| - 1;
    if i < n {
      Earlier(ops, n, i);
      forall j: nat | i < j < n
        ensures !IssuesAt(ops[..n], j)
      {
        Earlier(ops, n, j);
      }
      InForceIsRemembered(ops[..n], i);
      assert !IssuesAt(ops, n);
    }
  }

  lemma {:induction false} TokenComesFromIssue(ops: seq<Op>) returns (i: nat)
    requires After(ops).token.Some?
    ensures InForce(ops, i) && ops[i].Issue? && After(ops).token == Some(ops[i].token)
  {
    var n := |ops| - 1;
    if IssuesAt(ops, n) {
      i := n;
    } else {
      i := TokenComesFromIssue(ops[..n]);
      Earlier(ops, n, i);
      forall j: nat | i < j < |ops|
        ensures !IssuesAt(ops, j)
      {
        if j < n {
          Earlier(ops, n, j);
        }
      }
    }
  }

  /**
    A download is served exactly when its token is the one last issued, its lifetime has not passed, fewer
    downloads than granted were served with it, and the script could be built.
   */
  lemma ServedExactly(ops: seq<Op>, j: nat)
    requires FreshTokens(ops) && j < |ops| && ops[j].Download?
    ensures ServedAt(ops, j) <==>
            && ops[j].scriptBuilt
            && exists i: nat ::
                 && InForce(ops[..j], i) && ops[i].Issue? && ops[i].token == ops[j].token
                 && ops[j].now < ops[i].now + ops[i].ttl
                 && Downloads(ops[..j], ops[i].token, i) < Granted(ops[i].maxDownloads)
  {
    hide After, Downloads, Granted;
    var before := ops[..j];
    if ServedAt(ops, j) {
      var i := TokenComesFromIssue(before);
      InForceIsRemembered(before, i);
      assert before[i] == ops[i];
    }
    forall i: nat | InForce(before, i)
      ensures Remembers(before, i) && before[i] == ops[i]
    {
      InForceIsRemembered(before, i);
    }
  }

  /** One issued token allows at most its grant of downloads, over the whole run. */
  lemma {:induction false} GrantIsCeiling(ops: seq<Op>, i: nat)
    requires FreshTokens(ops) && i < |ops| && IssuesAt(ops, i)
    ensures Downloads(ops, ops[i].token, i) <= Granted(ops[i].maxDownloads)
  {
    hide Granted;
    var n := |ops| - 1;
    if InForce(ops, i) {
      InForceIsRemembered(ops, i);
    } else {
      assert i < n;
      Earlier(ops, n, i);
      GrantIsCeiling(ops[..n], i);
      if ServedAt(ops, n) && ops[n].token == ops[i].token {
        var k := TokenComesFromIssue(ops[..n]);
        assert ops[..n][k] == ops[k] && ops[..n][i] == ops[i];
        assert k == i;
        ServeKeepsForce(ops, i);
      }
    }
  }

  lemma ServeKeepsForce(ops: seq<Op>, i: nat)
    requires ops != [] && InForce(ops[..|ops| - 1], i) && ServedAt(ops, |ops| - 1)
    ensures InForce(ops, i)
  {
    var n := |ops| - 1;
    hide After;
    forall j: nat | j < n
      ensures IssuesAt(ops[..n], j) == IssuesAt(ops, j)
    {
      Earlier(ops, n, j);
    }
    assert ops[n].Download?;
  }

  /** The token in force after the operations is that of issue `i`, with lifetime and downloads left at time `now`. */
  predicate Usable(ops: seq<Op>, i: nat, now: int) {
    && InForce(ops, i) && ops[i].Issue?
    && now < ops[i].now + ops[i].ttl
    && Downloads(ops, ops[i].token, i) < Granted(ops[i].maxDownloads)
  }

  /**
    A new token is handed out exactly by a valid issue that may create one and either rotates it or finds none usable:
    none issued, its lifetime over, or all its downloads served.
   */
  lemma IssuesExactly(ops: seq<Op>, j: nat)
    requires j < |ops|
    ensures IssuesAt(ops, j) <==>
            && ops[j].Issue? && ops[j].valid && ops[j].createToken
            && (ops[j].rotateToken || !exists i: nat :: Usable(ops[..j], i, ops[j].now))
  {
    hide After, Downloads, Granted;
    var before := ops[..j];
    if After(before).token.Some? {
      var i := TokenComesFromIssue(before);
      InForceIsRemembered(before, i);
      assert Active(After(before), ops[j].now) <==> Usable(before, i, ops[j].now);
    }
    forall i: nat | Usable(before, i, ops[j].now)
      ensures Active(After(before), ops[j].now)
    {
      InForceIsRemembered(before, i);
    }
  }

  /** When the token issued at `i` was last used. */
  function LastUse(ops: seq<Op>, i: nat): Option<int> {
    if |ops| <= i + 1 then None
    else
      var last := |ops| - 1;
      if ServedAt(ops, last) then Some(ops[last].now) else LastUse(ops[..last], i)
  }

  /** The record notes the last use of the token in force, and once more when that was the last one granted. */
  lemma {:induction false} UsesAreNoted(ops: seq<Op>, i: nat)
    requires InForce(ops, i)
    ensures After(ops).lastUsedAt == LastUse(ops, i)
    ensures After(ops).usedAt == if After(ops).remaining == 0 then LastUse(ops, i) else None
  {
    hide Granted;
    var n := |ops| - 1;
    InForceIsRemembered(ops, i);
    if i < n {
      Earlier(ops, n, i);
      forall j: nat | i < j < n
        ensures !IssuesAt(ops[..n], j)
      {
        Earlier(ops, n, j);
      }
      assert InForce(ops[..n], i);
      InForceIsRemembered(ops[..n], i);
      UsesAreNoted(ops[..n], i);
      assert !IssuesAt(ops, n);
    }
    hide Downloads;
  }

  predicate ValidIssue(op: Op) { op.Issue? && op.valid }

  predicate Rotates(op: Op) { ValidIssue(op) && op.rotateArtifact }

  /** Operation `i` is the last valid issue that rotates or, where none rotates, the first valid issue. */
  predicate Binding(ops: seq<Op>, i: nat) {
    && i < |ops| && ValidIssue(ops[i])
    && (Rotates(ops[i]) || forall j | 0 <= j < i :: !ValidIssue(ops[j]))
    && forall j | i < j < |ops| :: !Rotates(ops[j])
  }

  /** Over every run the bound artifact is that of the binding issue; there is none exactly without a valid issue. */
  lemma {:induction false} ArtifactIsOfBinding(ops: seq<Op>, i: nat)
    ensures After(ops).artifact == None <==> forall j | 0 <= j < |ops| :: !ValidIssue(ops[j])
    ensures Binding(ops, i) ==> After(ops).artifact == Some(ops[i].artifact)
  {
    if ops != [] {
      var n := |ops| - 1;
      var earlier := ops[..n];
      ArtifactIsOfBinding(earlier, i);
      assert forall j | 0 <= j < n :: earlier[j] == ops[j];
      assert Binding(ops, i) && i < n ==> Binding(earlier, i);
      assert (exists j :: 0 <= j < n && ValidIssue(earlier[j])) <==> (exists j :: 0 <= j < n && ValidIssue(ops[j]));
      assert (exists j :: 0 <= j < |ops| && ValidIssue(ops[j])) <==>
             ValidIssue(ops[n]) || exists j :: 0 <= j < n && ValidIssue(ops[j]);
      hide Granted, Active;
    }
  }

  /** In every run with a valid issue some operation is the binding one. */
  lemma {:induction false} BindingExists(ops: seq<Op>, k: nat) returns (i: nat)
    requires k < |ops| && ValidIssue(ops[k])
    ensures Binding(ops, i)
  {
    var n := |ops| - 1;
    if Rotates(ops[n]) || forall j | 0 <= j < n :: !ValidIssue(ops[j]) {
      i := n;
    } else {
      var j :| 0 <= j < n && ValidIssue(ops[j]);
      var earlier := ops[..n];
      i := BindingExists(earlier, j);
    }
  }

  /** While a token is active an issue that does not rotate leaves it, its downloads and its lifetime alone. */
  lemma QuietIssueKeepsToken(item: Item, op: Op)
    requires op.Issue? && !op.rotateToken && Active(item, op.now)
    ensures Next(item, op) == item.(artifact := Next(item, op).artifact)
  {
  }
}
