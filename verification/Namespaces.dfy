/** The tree of namespaces: its table, its walks, and the paths that name its nodes. */
module Namespaces {
  import opened Wrappers
  import Like
  import Strings

  const ROOT := "root"

  datatype Namespace = Namespace(name: string, parent: Option<string>)

  // Keyed by namespace id.
  type Rows = map<string, Namespace>

  // ---------- The constraints of the table ----------

  predicate ValidName(name: string) {
    Like.LowerAll(name) == name && name != "" && ' ' !in name && '/' !in name
  }

  predicate HasParent(ns: Namespace) {
    ns.parent.None? <==> ns.name == ROOT
  }

  predicate SiblingTaken(rows: Rows, ns: Namespace) {
    exists id :: id in rows && rows[id].parent == ns.parent && rows[id].name == ns.name
  }

  // An INSERT that no constraint refuses. Two roots would have the same name, so the
  // partial index on roots and the uniqueness of siblings come to the same. The foreign key
  // is content with a row that names itself.
  predicate CanCreate(rows: Rows, id: string, ns: Namespace) {
    && id !in rows
    && HasParent(ns) && ValidName(ns.name)
    && (ns.parent.Some? ==> ns.parent.value in rows || ns.parent.value == id)
    && !SiblingTaken(rows, ns)
  }

  // The rows form a forest: every parent exists, and was there before its children.
  ghost predicate Forest(rows: Rows, rank: map<string, nat>) {
    && rows.Keys <= rank.Keys
    && forall id | id in rows && rows[id].parent.Some? ::
         rows[id].parent.value in rows && rank[rows[id].parent.value] < rank[id]
  }

  predicate UniqueSiblings(rows: Rows) {
    forall a, b | a in rows && b in rows && rows[a].parent == rows[b].parent && rows[a].name == rows[b].name :: a == b
  }

  ghost predicate ValidTree(rows: Rows, rank: map<string, nat>) {
    && Forest(rows, rank)
    && UniqueSiblings(rows)
    && forall id | id in rows :: HasParent(rows[id]) && ValidName(rows[id].name)
  }

  lemma CreatedForest(rows: Rows, rank: map<string, nat>, id: string, ns: Namespace, depth: nat)
    requires Forest(rows, rank) && id !in rows
    requires ns.parent.Some? ==> ns.parent.value in rows && rank[ns.parent.value] < depth
    ensures Forest(rows[id := ns], rank[id := depth])
  {}

  lemma CreatedSiblings(rows: Rows, id: string, ns: Namespace)
    requires UniqueSiblings(rows) && !SiblingTaken(rows, ns)
    ensures UniqueSiblings(rows[id := ns])
  {
    var rows' := rows[id := ns];
    forall a, b | a in rows' && b in rows' && rows'[a].parent == rows'[b].parent && rows'[a].name == rows'[b].name
      ensures a == b
    {
      assert forall i | i in rows :: !(rows[i].parent == ns.parent && rows[i].name == ns.name);
    }
  }

  lemma SelfParentIsNoTree(rows: Rows, id: string)
    requires id in rows && rows[id].parent == Some(id)
    ensures forall ranks :: !Forest(rows, ranks)
  {}

  // ---------- Walking up ----------

  ghost function Ancestry(rows: Rows, rank: map<string, nat>, id: string): seq<string>
    requires Forest(rows, rank) && id in rows
    decreases rank[id]
  {
    [id] + if rows[id].parent.None? then [] else Ancestry(rows, rank, rows[id].parent.value)
  }

  // The names from the root down.
  ghost function FullPath(rows: Rows, rank: map<string, nat>, id: string): (path: seq<string>)
    requires Forest(rows, rank) && id in rows
    ensures path != []
    decreases rank[id]
  {
    (if rows[id].parent.None? then [] else FullPath(rows, rank, rows[id].parent.value)) + [rows[id].name]
  }

  // ---------- Finding by path ----------

  // What the joined query selects. It never looks at the first component.
  function Found(rows: Rows, path: seq<string>): set<string>
    requires path != []
  {
    if |path| == 1 then set id | id in rows && rows[id].parent.None?
    else
      var above := Found(rows, path[..|path| - 1]);
      set id | id in rows && rows[id].parent.Some? && rows[id].parent.value in above && rows[id].name == path[|path| - 1]
  }

  // The child of `parent` that is called `name`.
  predicate IsChild(rows: Rows, id: string, parent: string) {
    id in rows && rows[id].parent == Some(parent)
  }

  class NamespaceRepo {
    var rows: Rows
    ghost var rank: map<string, nat>

    ghost predicate Valid()
      reads this
    {
      ValidTree(rows, rank)
    }

    constructor ()
      ensures Valid() && rows == map[]
    {
      rows := map[];
      rank := map[];
    }

    // The constraints alone do not keep the tree a tree: a row that names itself as its
    // parent gets past them, and then no ranks make a forest of the rows.
    method Create(id: string, ns: Namespace) returns (ok: bool)
      requires Valid()
      modifies this
      ensures ok <==> CanCreate(old(rows), id, ns)
      ensures ok <==>
        && id !in old(rows)
        && (ns.parent.None? <==> ns.name == "root")
        && Like.LowerAll(ns.name) == ns.name && ns.name != "" && ' ' !in ns.name && '/' !in ns.name
        && (ns.parent.Some? ==> ns.parent.value in old(rows) || ns.parent.value == id)
        && forall i | i in old(rows) :: !(old(rows)[i].parent == ns.parent && old(rows)[i].name == ns.name)
      ensures rows == if ok then old(rows)[id := ns] else old(rows)
      ensures Valid() <==> !(ok && ns.parent == Some(id))
      ensures !Valid() ==> forall ranks :: !Forest(rows, ranks)
      ensures forall i | i in old(rows) :: i in rank && rank[i] == old(rank)[i]
    {
      ok := && id !in rows
            && HasParent(ns) && ValidName(ns.name)
            && (ns.parent.Some? ==> ns.parent.value in rows || ns.parent.value == id)
            && !exists i | i in rows :: rows[i].parent == ns.parent && rows[i].name == ns.name;
      if ok {
        var depth := if ns.parent.Some? && ns.parent.value in rows then rank[ns.parent.value] + 1 else 0;
        rank := rank[id := depth];
        rows := rows[id := ns];
        if ns.parent == Some(id) {
          SelfParentIsNoTree(rows, id);
        } else {
          CreatedForest(old(rows), old(rank), id, ns, depth);
          CreatedSiblings(old(rows), id, ns);
        }
      }
    }

    // `inUse` tells whether mounts of the namespace remain. RESTRICT refuses the deletion of
    // a namespace that still has mounts or children.
    method Delete(id: string, inUse: bool) returns (r: Result<bool, ()>)
      requires Valid()
      modifies this`rows
      ensures Valid()
      ensures r.Ok? ==> r.value == (id in old(rows) && old(rows)[id].parent.Some?)
      ensures r.Err? <==>
        id in old(rows) && old(rows)[id].parent.Some? && (inUse || exists child :: IsChild(old(rows), child, id))
      ensures rows == if r == Ok(true) then old(rows) - {id} else old(rows)
    {
      if id !in rows || rows[id].parent.None? {
        return Ok(false);
      }
      if inUse || exists child | child in rows :: IsChild(rows, child, id) {
        return Err(());
      }
      assert forall child | child in rows :: !IsChild(rows, child, id);
      rows := rows - {id};
      r := Ok(true);
    }

    method FindByPath(path: seq<string>) returns (r: Option<string>)
      ensures path == [] ==> r.None?
      ensures path != [] ==> if r.None? then Found(rows, path) == {} else r.value in Found(rows, path)
    {
      if path == [] {
        return None;
      }
      var found := set id | id in rows && rows[id].parent.None?;
      var idx := 1;
      assert path[..1] != [];
      while idx < |path|
        invariant 1 <= idx <= |path|
        invariant found == Found(rows, path[..idx])
      {
        assert path[..idx + 1][..idx] == path[..idx];
        found := set id | id in rows && rows[id].parent.Some? && rows[id].parent.value in found && rows[id].name == path[idx];
        idx := idx + 1;
      }
      assert path[..idx] == path;
      if id :| id in found {
        r := Some(id);
      } else {
        r := None;
      }
    }

    method FindParents(id: string) returns (parents: seq<string>)
      requires Valid()
      ensures id !in rows ==> parents == []
      ensures id in rows ==> parents == Ancestry(rows, rank, id)
    {
      parents := [];
      if id !in rows {
        return;
      }
      var parent := rows[id].parent;
      parents := [id];
      while parent.Some?
        invariant parent.Some? ==> parent.value in rows
        invariant Ancestry(rows, rank, id) == parents + if parent.Some? then Ancestry(rows, rank, parent.value) else []
        decreases if parent.Some? then 1 + rank[parent.value] else 0
      {
        var up := parent.value;
        parent := if up in rows then rows[up].parent else None;
        parents := parents + [up];
      }
    }

    method GetFullPath(id: string) returns (path: string)
      requires Valid()
      ensures path == if id in rows then Strings.Join(FullPath(rows, rank, id), "/") else ""
    {
      var parents := FindParents(id);
      if id in rows { NamesAreFullPath(rows, rank, id); }
      var names := ReversedNames(rows, parents);
      path := Strings.Join(names, "/");
    }

    // The children of a namespace.
    method List(id: string) returns (children: seq<string>)
      ensures forall c :: c in children <==> IsChild(rows, c, id)
      ensures forall i, j | 0 <= i < j < |children| :: children[i] != children[j]
    {
      children := [];
      var rest := set c | c in rows && IsChild(rows, c, id);
      while rest != {}
        invariant forall c :: IsChild(rows, c, id) <==> c in rest || c in children
        invariant forall c | c in rest :: c !in children
        invariant forall i, j | 0 <= i < j < |children| :: children[i] != children[j]
        decreases rest
      {
        var c :| c in rest;
        rest := rest - {c};
        children := children + [c];
      }
    }
  }

  predicate AllIn(rows: Rows, ids: seq<string>) {
    forall i | 0 <= i < |ids| :: ids[i] in rows
  }

  function ReversedNames(rows: Rows, ids: seq<string>): seq<string>
    requires AllIn(rows, ids)
  {
    if ids == [] then [] else ReversedNames(rows, ids[1..]) + [rows[ids[0]].name]
  }

  lemma {:induction false} NamesAreFullPath(rows: Rows, rank: map<string, nat>, id: string)
    requires Forest(rows, rank) && id in rows
    ensures AllIn(rows, Ancestry(rows, rank, id))
    ensures ReversedNames(rows, Ancestry(rows, rank, id)) == FullPath(rows, rank, id)
    decreases rank[id]
  {
    var up := Ancestry(rows, rank, id);
    if rows[id].parent.Some? {
      NamesAreFullPath(rows, rank, rows[id].parent.value);
      assert up[1..] == Ancestry(rows, rank, rows[id].parent.value);
    } else {
      assert up == [id];
    }
  }

  // ---------- The round trip ----------

  // A namespace is found by its full path, and by no other whose first component is `root`.
  lemma {:induction false} FoundIff(rows: Rows, rank: map<string, nat>, id: string, path: seq<string>)
    requires ValidTree(rows, rank) && id in rows && path != []
    ensures id in Found(rows, path) <==> FullPath(rows, rank, id) == [ROOT] + path[1..]
    decreases |path|
  {
    var full := FullPath(rows, rank, id);
    if |path| == 1 {
      if rows[id].parent.Some? { assert |full| > 1; }
    } else {
      var init, last := path[..|path| - 1], path[|path| - 1];
      assert [ROOT] + path[1..] == [ROOT] + init[1..] + [last];
      if rows[id].parent.Some? {
        var up := rows[id].parent.value;
        FoundIff(rows, rank, up, init);
        assert full == FullPath(rows, rank, up) + [rows[id].name];
        assert full[..|full| - 1] == FullPath(rows, rank, up);
        assert ([ROOT] + init[1..] + [last])[..|init|] == [ROOT] + init[1..];
      } else {
        assert |full| == 1;
      }
    }
  }

  lemma FullPathStartsAtRoot(rows: Rows, rank: map<string, nat>, id: string)
    requires ValidTree(rows, rank) && id in rows
    ensures FullPath(rows, rank, id)[0] == ROOT
    decreases rank[id]
  {
    if rows[id].parent.Some? { FullPathStartsAtRoot(rows, rank, rows[id].parent.value); }
  }

  lemma {:induction false} FullPathInjective(rows: Rows, rank: map<string, nat>, a: string, b: string)
    requires ValidTree(rows, rank) && a in rows && b in rows
    requires FullPath(rows, rank, a) == FullPath(rows, rank, b)
    ensures a == b
    decreases rank[a]
  {
    var p, q := FullPath(rows, rank, a), FullPath(rows, rank, b);
    assert rows[a].name == p[|p| - 1] == rows[b].name;
    if rows[a].parent.Some? && rows[b].parent.Some? {
      var u, v := rows[a].parent.value, rows[b].parent.value;
      assert FullPath(rows, rank, u) == p[..|p| - 1] && FullPath(rows, rank, v) == q[..|q| - 1];
      FullPathInjective(rows, rank, u, v);
    }
  }

  lemma {:induction false} FullPathNames(rows: Rows, rank: map<string, nat>, id: string)
    requires ValidTree(rows, rank) && id in rows
    ensures forall i | 0 <= i < |FullPath(rows, rank, id)| :: ValidName(FullPath(rows, rank, id)[i])
    decreases rank[id]
  {
    if rows[id].parent.Some? { FullPathNames(rows, rank, rows[id].parent.value); }
  }

  // The path of a namespace, written out and split again, finds that namespace and no other.
  lemma PathRoundTrip(rows: Rows, rank: map<string, nat>, id: string)
    requires ValidTree(rows, rank) && id in rows
    ensures
      var written := Strings.Join(FullPath(rows, rank, id), "/");
      Found(rows, Strings.Split(written, '/')) == {id}
  {
    var full := FullPath(rows, rank, id);
    FullPathNames(rows, rank, id);
    Strings.SplitJoin(full, '/');
    FullPathStartsAtRoot(rows, rank, id);
    assert [ROOT] + full[1..] == full;
    FoundIff(rows, rank, id, full);
    forall other | other in Found(rows, full) ensures other == id {
      FoundInRows(rows, full, other);
      FoundIff(rows, rank, other, full);
      FullPathInjective(rows, rank, other, id);
    }
  }

  lemma FoundInRows(rows: Rows, path: seq<string>, id: string)
    requires path != [] && id in Found(rows, path)
    ensures id in rows
  {}

  // The path a namespace was found by is its full path exactly if it begins with `root`.
  lemma FoundByFullPathIff(rows: Rows, rank: map<string, nat>, id: string, path: seq<string>)
    requires ValidTree(rows, rank) && path != [] && id in Found(rows, path)
    ensures id in rows
    ensures FullPath(rows, rank, id) == path <==> path[0] == ROOT
  {
    FoundInRows(rows, path, id);
    FoundIff(rows, rank, id, path);
    assert path == [path[0]] + path[1..];
  }

  // ---------- Subtrees ----------

  ghost predicate Under(rows: Rows, rank: map<string, nat>, d: string, id: string)
    requires Forest(rows, rank) && d in rows
    decreases rank[d]
  {
    d == id || (rows[d].parent.Some? && Under(rows, rank, rows[d].parent.value, id))
  }

  ghost predicate InSubtree(rows: Rows, rank: map<string, nat>, d: string, id: string)
    requires Forest(rows, rank)
  {
    d in rows && Under(rows, rank, d, id)
  }

  // Rows left over after deletions, with their parents.
  ghost predicate LeftOver(rows: Rows, rows': Rows) {
    && rows'.Keys <= rows.Keys
    && forall id | id in rows' :: rows'[id] == rows[id]
  }

  lemma {:induction false} UnderLeftOver(rows: Rows, rank: map<string, nat>, rows': Rows, d: string, id: string)
    requires Forest(rows, rank) && Forest(rows', rank) && LeftOver(rows, rows') && d in rows'
    ensures Under(rows', rank, d, id) == Under(rows, rank, d, id)
    decreases rank[d]
  {
    if d != id && rows[d].parent.Some? {
      UnderLeftOver(rows, rank, rows', rows[d].parent.value, id);
    }
  }

  // Below a namespace is below one of its children.
  lemma {:induction false} UnderChild(rows: Rows, rank: map<string, nat>, d: string, id: string) returns (child: string)
    requires Forest(rows, rank) && InSubtree(rows, rank, d, id) && d != id
    ensures IsChild(rows, child, id) && Under(rows, rank, d, child)
    decreases rank[d]
  {
    var up := rows[d].parent.value;
    if up == id {
      child := d;
    } else {
      child := UnderChild(rows, rank, up, id);
    }
  }

  lemma {:induction false} ChildIsUnder(rows: Rows, rank: map<string, nat>, d: string, child: string, id: string)
    requires Forest(rows, rank) && InSubtree(rows, rank, d, child) && IsChild(rows, child, id)
    ensures Under(rows, rank, d, id) && rank[id] < rank[d]
    decreases rank[d]
  {
    if d != child {
      ChildIsUnder(rows, rank, rows[d].parent.value, child, id);
    }
  }

  // Two siblings have nothing below them in common.
  lemma {:induction false} SiblingsDisjoint(rows: Rows, rank: map<string, nat>, d: string, a: string, b: string)
    requires Forest(rows, rank) && InSubtree(rows, rank, d, a) && InSubtree(rows, rank, d, b)
    requires a in rows && b in rows && rows[a].parent == rows[b].parent
    ensures a == b
    decreases rank[d]
  {
    if d != a && d != b {
      SiblingsDisjoint(rows, rank, rows[d].parent.value, a, b);
    } else if a != b {
      var low, high := d, if d == a then b else a;
      RankUnder(rows, rank, rows[low].parent.value, high);
    }
  }

  lemma {:induction false} RankUnder(rows: Rows, rank: map<string, nat>, d: string, id: string)
    requires Forest(rows, rank) && InSubtree(rows, rank, d, id)
    ensures id in rows && rank[id] <= rank[d]
    decreases rank[d]
  {
    if d != id { RankUnder(rows, rank, rows[d].parent.value, id); }
  }

  // A namespace whose path begins with that of another is in its subtree.
  lemma {:induction false} PrefixMeansUnder(rows: Rows, rank: map<string, nat>, d: string, id: string)
    requires ValidTree(rows, rank) && d in rows && id in rows
    requires FullPath(rows, rank, id) <= FullPath(rows, rank, d)
    ensures Under(rows, rank, d, id)
    decreases rank[d]
  {
    var full, prefix := FullPath(rows, rank, d), FullPath(rows, rank, id);
    if |prefix| == |full| {
      assert prefix == full[..|prefix|] == full;
      FullPathInjective(rows, rank, d, id);
    } else {
      var up := rows[d].parent.value;
      assert full[..|full| - 1] == FullPath(rows, rank, up);
      assert prefix == full[..|full| - 1][..|prefix|];
      PrefixMeansUnder(rows, rank, up, id);
    }
  }
}
