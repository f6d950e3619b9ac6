/** Policies on paths, their delegation, and the authorisation of requests to namespaces. */
module Policies {
  import opened Wrappers
  import Namespaces
  import Strings

  datatype Operation = Create | Read | Update | Delete | Revoke | Renew

  datatype PathPolicy = PathPolicy(path: string, operations: seq<Operation>)

  datatype Policy = Policy(name: string, paths: seq<PathPolicy>, namespaceId: string)

  predicate EndsWithStar(path: string) {
    path != "" && path[|path| - 1] == '*'
  }

  function WithoutStar(path: string): string
    requires EndsWithStar(path)
  {
    path[..|path| - 1]
  }

  predicate MatchesPath(pattern: string, path: string) {
    if EndsWithStar(pattern) then WithoutStar(pattern) <= path else path == pattern
  }

  predicate PathAllows(pp: PathPolicy, path: string, operations: seq<Operation>) {
    MatchesPath(pp.path, path) && forall op | op in operations :: op in pp.operations
  }

  predicate Allows(p: Policy, path: string, operations: seq<Operation>) {
    exists i | 0 <= i < |p.paths| :: PathAllows(p.paths[i], path, operations)
  }

  predicate AnyAllows(policies: seq<Policy>, path: string, operations: seq<Operation>) {
    exists i | 0 <= i < |policies| :: Allows(policies[i], path, operations)
  }

  predicate NameKnown(policies: seq<Policy>, name: string) {
    exists i | 0 <= i < |policies| :: policies[i].name == name
  }

  predicate BatchIsAuthorized(policies: seq<Policy>, derived: seq<Policy>) {
    forall i | 0 <= i < |derived| && !NameKnown(policies, derived[i].name) ::
      forall j | 0 <= j < |derived[i].paths| ::
        AnyAllows(policies, derived[i].paths[j].path, derived[i].paths[j].operations)
  }

  // ---------- Delegation ----------

  // Every request that `d` allows, `pp` allows.
  ghost predicate Covers(pp: PathPolicy, d: PathPolicy) {
    forall path, operations :: PathAllows(d, path, operations) ==> PathAllows(pp, path, operations)
  }

  // The check takes the pattern of `d` for a path; that is sound except when the pattern of
  // `pp` is that of `d` with one more star.
  lemma CoversIff(pp: PathPolicy, d: PathPolicy)
    requires PathAllows(pp, d.path, d.operations)
    ensures Covers(pp, d) <==> !(EndsWithStar(d.path) && pp.path == d.path + "*")
  {
    if EndsWithStar(d.path) && pp.path == d.path + "*" {
      assert PathAllows(d, WithoutStar(d.path), []);
      assert WithoutStar(pp.path) == d.path;
      assert !PathAllows(pp, WithoutStar(d.path), []);
    } else {
      forall path, operations | PathAllows(d, path, operations) ensures PathAllows(pp, path, operations) {
        if EndsWithStar(pp.path) && EndsWithStar(d.path) {
          PrefixOfStarred(WithoutStar(pp.path), WithoutStar(d.path), pp.path, d.path);
        }
      }
    }
  }

  lemma PrefixOfStarred(p: string, q: string, pp: string, qq: string)
    requires pp == p + "*" && qq == q + "*" && p <= qq && pp != qq + "*"
    ensures p <= q
  {
    if |p| < |qq| {
      assert p == qq[..|p|] == q[..|p|];
    } else {
      PrefixOfSameLength(p, qq);
    }
  }

  lemma PrefixOfSameLength(p: string, q: string)
    requires p <= q && |p| == |q|
    ensures p == q
  {
    assert p == q[..|p|];
  }

  // A star occurs only as the last character.
  predicate PlainStar(path: string) {
    forall i | 0 <= i < |path| - 1 :: path[i] != '*'
  }

  predicate AllPlain(policies: seq<Policy>) {
    forall i, j | 0 <= i < |policies| && 0 <= j < |policies[i].paths| :: PlainStar(policies[i].paths[j].path)
  }

  // Policies of the same name allow the same.
  predicate NamesAgree(policies: seq<Policy>, derived: seq<Policy>) {
    forall i, j | 0 <= i < |policies| && 0 <= j < |derived| && policies[i].name == derived[j].name ::
      policies[i].paths == derived[j].paths
  }

  // Whoever gets the derived policies can do nothing that the policies do not allow.
  lemma DelegationSound(policies: seq<Policy>, derived: seq<Policy>, path: string, operations: seq<Operation>)
    requires AllPlain(policies) && NamesAgree(policies, derived)
    requires BatchIsAuthorized(policies, derived)
    requires AnyAllows(derived, path, operations)
    ensures AnyAllows(policies, path, operations)
  {
    var i :| 0 <= i < |derived| && Allows(derived[i], path, operations);
    if NameKnown(policies, derived[i].name) {
      var k :| 0 <= k < |policies| && policies[k].name == derived[i].name;
      assert Allows(policies[k], path, operations);
    } else {
      var j :| 0 <= j < |derived[i].paths| && PathAllows(derived[i].paths[j], path, operations);
      var d := derived[i].paths[j];
      assert AnyAllows(policies, d.path, d.operations);
      var k :| 0 <= k < |policies| && Allows(policies[k], d.path, d.operations);
      var m :| 0 <= m < |policies[k].paths| && PathAllows(policies[k].paths[m], d.path, d.operations);
      PlainCovers(policies[k].paths[m], d);
      assert PathAllows(policies[k].paths[m], path, operations);
      assert Allows(policies[k], path, operations);
    }
  }

  lemma PlainCovers(pp: PathPolicy, d: PathPolicy)
    requires PlainStar(pp.path) && PathAllows(pp, d.path, d.operations)
    ensures Covers(pp, d)
  {
    CoversIff(pp, d);
    if EndsWithStar(d.path) && pp.path == d.path + "*" {
      DoubleStarNotPlain(d.path);
    }
  }

  lemma DoubleStarNotPlain(path: string)
    requires EndsWithStar(path)
    ensures !PlainStar(path + "*")
  {
    assert (path + "*")[|path| - 1] == '*';
  }

  // A held entry has all operations of a wanted one, and its pattern, or what comes before the
  // star at its end, is or begins the wanted pattern.
  predicate Holds(held: PathPolicy, wanted: PathPolicy) {
    && (forall op | op in wanted.operations :: op in held.operations)
    && if held.path != "" && held.path[|held.path| - 1] == '*' then held.path[..|held.path| - 1] <= wanted.path
       else held.path == wanted.path
  }

  ghost predicate HeldByOne(policies: seq<Policy>, wanted: PathPolicy) {
    exists k, m | 0 <= k < |policies| && 0 <= m < |policies[k].paths| :: Holds(policies[k].paths[m], wanted)
  }

  lemma AnyAllowsIff(policies: seq<Policy>, wanted: PathPolicy)
    ensures AnyAllows(policies, wanted.path, wanted.operations) <==> HeldByOne(policies, wanted)
  {
    if k, m :| 0 <= k < |policies| && 0 <= m < |policies[k].paths| && Holds(policies[k].paths[m], wanted) {
      assert PathAllows(policies[k].paths[m], wanted.path, wanted.operations);
      assert Allows(policies[k], wanted.path, wanted.operations);
    }
    if AnyAllows(policies, wanted.path, wanted.operations) {
      var k :| 0 <= k < |policies| && Allows(policies[k], wanted.path, wanted.operations);
      var m :| 0 <= m < |policies[k].paths| && PathAllows(policies[k].paths[m], wanted.path, wanted.operations);
      assert Holds(policies[k].paths[m], wanted);
    }
  }

  // A batch is accepted exactly if every entry of it, unless the name of its policy is known,
  // takes its operations and its pattern from one entry that is held.
  lemma BatchAcceptedIff(policies: seq<Policy>, derived: seq<Policy>)
    ensures BatchIsAuthorized(policies, derived) <==>
      forall i, j | 0 <= i < |derived| && 0 <= j < |derived[i].paths| ::
        (forall n | 0 <= n < |policies| :: policies[n].name != derived[i].name) ==> HeldByOne(policies, derived[i].paths[j])
  {
    forall i, j | 0 <= i < |derived| && 0 <= j < |derived[i].paths|
      ensures AnyAllows(policies, derived[i].paths[j].path, derived[i].paths[j].operations) <==> HeldByOne(policies, derived[i].paths[j])
    {
      AnyAllowsIff(policies, derived[i].paths[j]);
    }
  }

  // With a star inside, more can be handed on than is held.
  lemma InnerStarEscalates()
    ensures
      var policies := [Policy("p", [PathPolicy("a**", [Read])], "ns")];
      var derived := [Policy("d", [PathPolicy("a*", [Read])], "ns")];
      BatchIsAuthorized(policies, derived) && AnyAllows(derived, "ab", [Read]) && !AnyAllows(policies, "ab", [Read])
  {
    var policies := [Policy("p", [PathPolicy("a**", [Read])], "ns")];
    var derived := [Policy("d", [PathPolicy("a*", [Read])], "ns")];
    assert WithoutStar("a**") == "a*" && WithoutStar("a*") == "a";
    assert PathAllows(policies[0].paths[0], "a*", [Read]);
    assert Allows(policies[0], "a*", [Read]);
    assert PathAllows(derived[0].paths[0], "ab", [Read]);
    assert Allows(derived[0], "ab", [Read]);
  }

  // Under a name that is known already, anything can be handed on: it is not looked at.
  lemma KnownNameEscalates(held: seq<PathPolicy>, wanted: seq<PathPolicy>, name: string, ns: string)
    ensures
      var policies, derived := [Policy(name, held, ns)], [Policy(name, wanted, ns)];
      && BatchIsAuthorized(policies, derived)
      && (forall path, operations :: AnyAllows(derived, path, operations) <==> Allows(derived[0], path, operations))
      && (NamesAgree(policies, derived) <==> held == wanted)
  {
    var policies, derived := [Policy(name, held, ns)], [Policy(name, wanted, ns)];
    assert policies[0].name == derived[0].name;
    assert NameKnown(policies, name);
  }

  lemma KnownNameWitness()
    ensures
      var policies, derived := [Policy("p", [], "ns")], [Policy("p", [PathPolicy("a", [Read])], "ns")];
      && AllPlain(policies) && BatchIsAuthorized(policies, derived)
      && AnyAllows(derived, "a", [Read]) && !AnyAllows(policies, "a", [Read])
  {
    var policies, derived := [Policy("p", [], "ns")], [Policy("p", [PathPolicy("a", [Read])], "ns")];
    KnownNameEscalates([], derived[0].paths, "p", "ns");
    assert PathAllows(derived[0].paths[0], "a", [Read]);
    assert Allows(derived[0], "a", [Read]);
  }

  // ---------- Authorising a request ----------

  // A policy path, put under the path of the policy's namespace.
  function Attached(prefix: string, path: string): string {
    prefix + (if path != "" && path[0] == '/' then "" else "/") + path
  }

  function AttachedPolicy(prefix: string, p: Policy): Policy {
    p.(paths := seq(|p.paths|, i requires 0 <= i < |p.paths| => p.paths[i].(path := Attached(prefix, p.paths[i].path))))
  }

  function FullRequestPath(namespace: seq<string>, path: string): string {
    Strings.Join(namespace, "/") + "/" + path
  }

  predicate Accepted(policies: seq<Policy>, prefix: string, namespace: seq<string>, path: string, op: Operation) {
    exists i | 0 <= i < |policies| ::
      policies[i].namespaceId == policies[0].namespaceId
      && Allows(AttachedPolicy(prefix, policies[i]), FullRequestPath(namespace, path), [op])
  }

  // The paths of a policy, rewritten one by one.
  method Attach(prefix: string, p: Policy) returns (policy: Policy)
    ensures policy == AttachedPolicy(prefix, p)
  {
    policy := p;
    var j := 0;
    while j < |policy.paths|
      invariant 0 <= j <= |policy.paths| == |p.paths|
      invariant policy == p.(paths := AttachedPolicy(prefix, p).paths[..j] + p.paths[j..])
    {
      var path := policy.paths[j];
      var maybeSlash := if path.path != "" && path.path[0] == '/' then "" else "/";
      policy := policy.(paths := policy.paths[j := path.(path := prefix + maybeSlash + path.path)]);
      j := j + 1;
    }
  }

  // An entry lets an operation on a full path through: it names the operation, and its path,
  // put under the prefix, is the full path or, with a star at its end, has the rest begin it.
  predicate LetsThrough(prefix: string, entry: PathPolicy, full: string, op: Operation) {
    var pattern := prefix + (if entry.path != "" && entry.path[0] == '/' then "" else "/") + entry.path;
    && op in entry.operations
    && if pattern[|pattern| - 1] == '*' then pattern[..|pattern| - 1] <= full else pattern == full
  }

  // ACCEPTANCE, entry by entry.
  lemma AcceptedIff(policies: seq<Policy>, prefix: string, namespace: seq<string>, path: string, op: Operation)
    ensures Accepted(policies, prefix, namespace, path, op) <==>
      exists i, j | 0 <= i < |policies| && 0 <= j < |policies[i].paths| ::
        policies[i].namespaceId == policies[0].namespaceId
        && LetsThrough(prefix, policies[i].paths[j], Strings.Join(namespace, "/") + "/" + path, op)
  {
    var full := FullRequestPath(namespace, path);
    if Accepted(policies, prefix, namespace, path, op) {
      var i :| 0 <= i < |policies| && policies[i].namespaceId == policies[0].namespaceId
        && Allows(AttachedPolicy(prefix, policies[i]), full, [op]);
      var j :| 0 <= j < |policies[i].paths| && PathAllows(AttachedPolicy(prefix, policies[i]).paths[j], full, [op]);
      EntryAllowsIff(prefix, policies[i].paths[j], full, op);
    }
    if i, j :| 0 <= i < |policies| && 0 <= j < |policies[i].paths|
               && policies[i].namespaceId == policies[0].namespaceId && LetsThrough(prefix, policies[i].paths[j], full, op)
    {
      EntryAllowsIff(prefix, policies[i].paths[j], full, op);
      assert PathAllows(AttachedPolicy(prefix, policies[i]).paths[j], full, [op]);
      assert Allows(AttachedPolicy(prefix, policies[i]), full, [op]);
    }
  }

  lemma EntryAllowsIff(prefix: string, entry: PathPolicy, full: string, op: Operation)
    ensures PathAllows(entry.(path := Attached(prefix, entry.path)), full, [op]) <==> LetsThrough(prefix, entry, full, op)
  {
    assert op in [op];
  }

  // What no policy names, nothing accepts.
  lemma UnlistedOperationRefused(policies: seq<Policy>, prefix: string, namespace: seq<string>, path: string, op: Operation)
    requires forall i, j | 0 <= i < |policies| && 0 <= j < |policies[i].paths| :: op !in policies[i].paths[j].operations
    ensures !Accepted(policies, prefix, namespace, path, op)
  {
    AcceptedIff(policies, prefix, namespace, path, op);
  }

  // `policies` are those of the token, if there is one, and `prefix` is the full path of
  // the namespace of the first.
  method IsAuthorized(unsealed: bool, token: Option<seq<Policy>>, prefix: string,
                      namespace: seq<string>, path: string, op: Operation)
    returns (authorized: bool)
    ensures authorized <==>
      unsealed && token.Some? && Accepted(token.value, prefix, namespace, path, op)
  {
    if !unsealed || token.None? {
      return false;
    }
    var policies := token.value;
    if policies == [] {
      return false;
    }
    var full := FullRequestPath(namespace, path);
    var i := 0;
    while i < |policies|
      invariant 0 <= i <= |policies|
      invariant forall k | 0 <= k < i && policies[k].namespaceId == policies[0].namespaceId ::
        !Allows(AttachedPolicy(prefix, policies[k]), full, [op])
    {
      if policies[i].namespaceId == policies[0].namespaceId {
        var policy := Attach(prefix, policies[i]);
        if Allows(policy, full, [op]) {
          return true;
        }
      }
      i := i + 1;
    }
    authorized := false;
  }

  // ---------- Requests stay within the namespace ----------

  lemma JoinUnder(names: seq<string>, s: string) returns (rest: string)
    requires names != [] && Strings.Join(names, "/") + "/" <= s
    ensures s == names[0] + "/" + rest
    ensures |names| > 1 ==> Strings.Join(names[1..], "/") + "/" <= rest
  {
    var head := names[0];
    var whole := Strings.Join(names, "/") + "/";
    assert head + "/" <= whole;
    rest := s[|head| + 1..];
    if |names| > 1 {
      var joined := Strings.Join(names[1..], "/") + "/";
      assert whole == head + "/" + joined;
      assert joined == whole[|head| + 1..] == rest[..|joined|];
    }
  }

  lemma {:induction false} SplitUnderPrefix(names: seq<string>, s: string)
    requires names != [] && forall i | 0 <= i < |names| :: '/' !in names[i]
    requires Strings.Join(names, "/") + "/" <= s
    ensures names <= Strings.Split(s, '/')
  {
    var rest := JoinUnder(names, s);
    SplitOnce(names[0], rest);
    var parts := Strings.Split(rest, '/');
    assert names == [names[0]] + names[1..];
    assert Strings.Split(s, '/') == [names[0]] + parts;
    if |names| > 1 {
      SplitUnderPrefix(names[1..], rest);
      assert names[1..] == parts[..|names| - 1];
    }
  }

  lemma SplitOnce(head: string, rest: string)
    requires '/' !in head
    ensures Strings.Split(head + "/" + rest, '/') == [head] + Strings.Split(rest, '/')
  {
    var s := head + "/" + rest;
    assert s[..|head|] == head && s[|head| + 1..] == rest;
    Strings.IndexOfUnique(s, '/', |head|);
  }

  lemma FullPathStep(a: string, b: string, c: string)
    ensures (a + "/" + b) + "/" + c == a + "/" + (b + "/" + c)
  {}

  lemma SplitRequestStep(head: string, tail: seq<string>, path: string)
    requires '/' !in head && tail != []
    ensures Strings.Split(FullRequestPath([head] + tail, path), '/') == [head] + Strings.Split(FullRequestPath(tail, path), '/')
  {
    assert ([head] + tail)[1..] == tail;
    FullPathStep(head, Strings.Join(tail, "/"), path);
    SplitOnce(head, FullRequestPath(tail, path));
  }

  lemma {:induction false} SplitRequest(namespace: seq<string>, path: string)
    requires namespace != [] && forall i | 0 <= i < |namespace| :: '/' !in namespace[i]
    ensures Strings.Split(FullRequestPath(namespace, path), '/') == namespace + Strings.Split(path, '/')
  {
    var head, tail := namespace[0], namespace[1..];
    assert namespace == [head] + tail;
    if tail == [] {
      SplitOnce(head, path);
    } else {
      SplitRequest(tail, path);
      SplitRequestStep(head, tail, path);
      assert [head] + (tail + Strings.Split(path, '/')) == [head] + tail + Strings.Split(path, '/');
    }
  }

  lemma AllowedUnderPrefix(prefix: string, policyPath: string, full: string)
    requires MatchesPath(Attached(prefix, policyPath), full)
    ensures prefix + "/" <= full
  {
    var pattern := Attached(prefix, policyPath);
    assert prefix + "/" <= pattern;
    if EndsWithStar(pattern) {
      assert policyPath != "";
      assert policyPath[|policyPath| - 1] == '*';
      assert prefix + "/" <= WithoutStar(pattern);
    }
  }

  // An accepted request names the namespace of the token component by component, if need be
  // going on in the path.
  lemma AcceptedNamesNamespace(policies: seq<Policy>, token: seq<string>, namespace: seq<string>, path: string, op: Operation)
    requires token != [] && forall i | 0 <= i < |token| :: '/' !in token[i]
    requires token[0] != "" && forall i | 0 <= i < |namespace| :: '/' !in namespace[i]
    requires Accepted(policies, Strings.Join(token, "/"), namespace, path, op)
    ensures namespace != [] && token <= namespace + Strings.Split(path, '/')
  {
    var prefix := Strings.Join(token, "/");
    var full := FullRequestPath(namespace, path);
    var i :| 0 <= i < |policies| && Allows(AttachedPolicy(prefix, policies[i]), full, [op]);
    var attached := AttachedPolicy(prefix, policies[i]);
    assert Allows(attached, full, [op]);
    var j :| 0 <= j < |attached.paths| && PathAllows(attached.paths[j], full, [op]);
    AllowedUnderPrefix(prefix, policies[i].paths[j].path, full);
    SplitUnderPrefix(token, full);
    if namespace == [] {
      SplitOnce("", path);
    } else {
      SplitRequest(namespace, path);
    }
  }

  // The main result: an accepted request is to the token's namespace or to one below it
  // exactly if it names at least as many components.
  lemma AcceptedWithinIff(policies: seq<Policy>, rows: Namespaces.Rows, rank: map<string, nat>, id: string,
                          namespace: seq<string>, path: string, op: Operation)
    requires Namespaces.ValidTree(rows, rank) && id in rows
    requires forall i | 0 <= i < |namespace| :: '/' !in namespace[i]
    requires Accepted(policies, Strings.Join(Namespaces.FullPath(rows, rank, id), "/"), namespace, path, op)
    ensures
      var token := Namespaces.FullPath(rows, rank, id);
      token <= namespace <==> |namespace| >= |token|
  {
    var token := Namespaces.FullPath(rows, rank, id);
    Namespaces.FullPathNames(rows, rank, id);
    AcceptedNamesNamespace(policies, token, namespace, path, op);
    if |namespace| >= |token| {
      assert token == (namespace + Strings.Split(path, '/'))[..|token|] == namespace[..|token|];
    }
  }

  // In terms of the tree: an accepted request that names enough components, and is for a
  // namespace that exists, is for one in the subtree of the token's namespace.
  lemma AcceptedReachesSubtree(policies: seq<Policy>, rows: Namespaces.Rows, rank: map<string, nat>, id: string, target: string,
                               namespace: seq<string>, path: string, op: Operation)
    requires Namespaces.ValidTree(rows, rank) && id in rows
    requires namespace != [] && target in Namespaces.Found(rows, namespace)
    requires forall i | 0 <= i < |namespace| :: '/' !in namespace[i]
    requires Accepted(policies, Strings.Join(Namespaces.FullPath(rows, rank, id), "/"), namespace, path, op)
    requires |namespace| >= |Namespaces.FullPath(rows, rank, id)|
    ensures Namespaces.InSubtree(rows, rank, target, id)
  {
    var token := Namespaces.FullPath(rows, rank, id);
    AcceptedWithinIff(policies, rows, rank, id, namespace, path, op);
    Namespaces.FullPathStartsAtRoot(rows, rank, id);
    assert namespace[0] == token[0];
    Namespaces.FoundByFullPathIff(rows, rank, target, namespace);
    Namespaces.PrefixMeansUnder(rows, rank, target, id);
  }

  // Siblings do not share access, however alike their names begin.
  lemma SiblingRefused(policies: seq<Policy>, rows: Namespaces.Rows, rank: map<string, nat>, id: string, other: string,
                       path: string, op: Operation)
    requires Namespaces.ValidTree(rows, rank) && id in rows && other in rows && id != other
    requires rows[id].parent == rows[other].parent
    ensures !Accepted(policies, Strings.Join(Namespaces.FullPath(rows, rank, id), "/"),
                      Namespaces.FullPath(rows, rank, other), path, op)
  {
    var token, namespace := Namespaces.FullPath(rows, rank, id), Namespaces.FullPath(rows, rank, other);
    if Accepted(policies, Strings.Join(token, "/"), namespace, path, op) {
      Namespaces.FullPathNames(rows, rank, other);
      AcceptedWithinIff(policies, rows, rank, id, namespace, path, op);
      assert |token| == |namespace|;
      Namespaces.FullPathInjective(rows, rank, id, other);
    }
  }

  // A request to the parent that spells the token's namespace in its path is accepted too.
  lemma ParentAccepted()
    ensures Accepted([Policy("p", [PathPolicy("*", [Read])], "1")], Strings.Join(["root", "foo"], "/"), ["root"], "foo/x", Read)
  {
    var p := Policy("p", [PathPolicy("*", [Read])], "1");
    var prefix := Strings.Join(["root", "foo"], "/");
    assert prefix == "root/foo" by {
      assert ["root", "foo"][1..] == ["foo"];
      assert Strings.Join(["foo"], "/") == "foo";
    }
    var full := FullRequestPath(["root"], "foo/x");
    assert full == "root/foo/x";
    assert Attached(prefix, "*") == "root/foo/*";
    assert WithoutStar("root/foo/*") == "root/foo/" <= full;
    assert PathAllows(AttachedPolicy(prefix, p).paths[0], full, [Read]);
    assert Allows(AttachedPolicy(prefix, p), full, [Read]);
    assert [p][0] == p;
  }
}
