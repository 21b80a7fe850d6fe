/** The configuration tree over an abstract table: rows are appended with growing ids, lookups return the
    matching row with the lowest id, and any database operation may fail. */
module ConfigureTree {
  import opened GoStrings

  /** `parent` is None for the NULL that CreateRoot stores. */
  datatype Row = Row(id: nat, name: string, value: string, dataType: nat, parent: Option<nat>, description: string)

  datatype Table = Table(rows: seq<Row>, nextId: nat)

  const DATA_TYPE_CHILD: nat := 5

  /** A parent id of 0 asks for roots. */
  predicate Matches(r: Row, name: string, pid: nat) {
    r.name == name && if pid == 0 then r.parent == None || r.parent == Some(0) else r.parent == Some(pid)
  }

  function Find(rows: seq<Row>, name: string, pid: nat): (r: Option<Row>)
    ensures r.Some? ==> r.value in rows && Matches(r.value, name, pid)
    ensures r.None? ==> forall x :: x in rows ==> !Matches(x, name, pid)
  {
    if rows == [] then None
    else if Matches(rows[0], name, pid) then Some(rows[0])
    else Find(rows[1..], name, pid)
  }

  /** The row at the end of a path of names that starts under `pid`. */
  function FindPath(rows: seq<Row>, names: seq<string>, pid: nat): Option<Row>
    requires |names| > 0
  {
    match Find(rows, names[0], pid)
    case None => None
    case Some(r) => if |names| == 1 then Some(r) else FindPath(rows, names[1..], r.id)
  }

  /** Two rows under a parent row may not share a name; the index does not bind rows whose parent is NULL. */
  predicate Insertable(t: Table, name: string, parent: Option<nat>) {
    parent == None || forall i :: 0 <= i < |t.rows| ==> !(t.rows[i].name == name && t.rows[i].parent == parent)
  }

  /** An insert that reaches the table takes an id even when the index turns it down. */
  function Insert(t: Table, name: string, value: string, dataType: nat, parent: Option<nat>, description: string): Table
  {
    if Insertable(t, name, parent)
    then Table(t.rows + [Row(t.nextId, name, value, dataType, parent, description)], t.nextId + 1)
    else t.(nextId := t.nextId + 1)
  }

  datatype Create = Create(value: string, description: string, dataType: nat, names: seq<string>)

  /** Which of the database operations of one call fail. */
  datatype Faults = Faults(root1: bool, newRoot: bool, root2: bool,
                           child1: bool, newChild: bool, child2: bool,
                           leaf1: bool, newLeaf: bool, leaf2: bool)

  const NO_FAULTS := Faults(false, false, false, false, false, false, false, false, false)

  function Lookup(t: Table, name: string, pid: nat, fault: bool): Option<Row> {
    if fault then None else Find(t.rows, name, pid)
  }

  /** One level of CreateConfigure: look the name up, insert it where that fails, look it up again. None
      is an error return. */
  function Ensure(t: Table, name: string, value: string, dataType: nat, parent: Option<nat>, description: string,
                  fault1: bool, faultNew: bool, fault2: bool): (Table, Option<Row>)
  {
    var pid := if parent.Some? then parent.value else 0;
    if Lookup(t, name, pid, fault1).Some? then (t, Lookup(t, name, pid, fault2))
    else if faultNew then (t, None)
    else
      var t' := Insert(t, name, value, dataType, parent, description);
      if Insertable(t, name, parent) then (t', Lookup(t', name, pid, fault2)) else (t', None)
  }

  /** CreateConfigure from its third level on, under `child`. */
  function CreateUnderChild(t: Table, child: Row, c: Create, f: Faults): (Table, Option<Row>)
    requires |c.names| == 3
  {
    Ensure(t, c.names[2], c.value, c.dataType, Some(child.id), c.description, f.leaf1, f.newLeaf, f.leaf2)
  }

  /** CreateConfigure from its second level on, under `root`. */
  function CreateUnderRoot(t: Table, root: Row, c: Create, f: Faults): (Table, Option<Row>)
    requires |c.names| == 3
  {
    var (t', child) := Ensure(t, c.names[1], "", DATA_TYPE_CHILD, Some(root.id), c.description,
                              f.child1, f.newChild, f.child2);
    if child.None? then (t', None) else CreateUnderChild(t', child.value, c, f)
  }

  function CreateOnce(t: Table, c: Create, f: Faults): (Table, Option<Row>) {
    if |c.names| != 3 then (t, None)
    else
      var (t', root) := Ensure(t, c.names[0], "", DATA_TYPE_CHILD, None, "", f.root1, f.newRoot, f.root2);
      if root.None? then (t', None) else CreateUnderRoot(t', root.value, c, f)
  }

  ghost predicate IdsGrow(t: Table) {
    t.nextId >= 1 &&
    (forall i :: 0 <= i < |t.rows| ==> 1 <= t.rows[i].id < t.nextId) &&
    (forall i, j :: 0 <= i < j < |t.rows| ==> t.rows[i].id < t.rows[j].id)
  }

  lemma {:induction false} FindLowest(rows: seq<Row>, name: string, pid: nat)
    requires Find(rows, name, pid).Some? && forall i, j :: 0 <= i < j < |rows| ==> rows[i].id < rows[j].id
    ensures forall r :: r in rows && Matches(r, name, pid) ==> Find(rows, name, pid).value.id <= r.id
  {
    if !Matches(rows[0], name, pid) {
      FindLowest(rows[1..], name, pid);
    }
  }

  /** The row is a child of row pid, or, for 0, one without a parent. */
  ghost predicate UnderId(r: Row, pid: nat) {
    if pid == 0 then r.parent.None? || r.parent.value == 0 else r.parent.Some? && r.parent.value == pid
  }

  lemma MatchesOnFields(name: string, pid: nat)
    ensures forall r :: Matches(r, name, pid) <==> r.name == name && UnderId(r, pid)
  {
  }

  class Configures {
    var rows: seq<Row>
    var nextId: nat

    function State(): Table
      reads this
    {
      Table(rows, nextId)
    }

    constructor ()
      ensures State() == Table([], 1)
    {
      rows, nextId := [], 1;
    }

    /** The matching row that First picks, which where ids grow is the one of lowest id. */
    method GetConfigureByName(name: string, pid: nat, fault: bool) returns (c: Option<Row>)
      ensures c == if fault then None else Find(rows, name, pid)
      ensures c.Some? ==> c.value in rows && c.value.name == name && UnderId(c.value, pid)
      ensures c.None? && !fault ==> forall r :: r in rows && r.name == name ==> !UnderId(r, pid)
      ensures IdsGrow(State()) && c.Some? ==> forall r :: r in rows && Matches(r, name, pid) ==> c.value.id <= r.id
    {
      c := Lookup(State(), name, pid, fault);
      MatchesOnFields(name, pid);
      if c.Some? && IdsGrow(State()) {
        FindLowest(rows, name, pid);
      }
    }

    /** The loop of GetConfigureByNames; fails at the first lookup that does. An empty path finds no row
        and is no error. */
    method GetConfigureByNames(names: seq<string>, fault: nat -> bool) returns (ok: bool, c: Option<Row>)
      ensures names == [] ==> ok && c == None
      ensures names != [] ==> (ok <==> c.Some?)
      ensures names != [] ==>
                c == if exists i: nat :: i < |names| && fault(i) then None else FindPath(rows, names, 0)
    {
      var pid: nat := 0;
      c := None;
      for i := 0 to |names|
        invariant i == 0 ==> pid == 0 && c == None
        invariant i > 0 ==> c.Some? && pid == c.value.id
        invariant forall j: nat :: j < i ==> !fault(j)
        invariant 0 < i < |names| ==> FindPath(rows, names, 0) == FindPath(rows, names[i..], pid)
        invariant 0 < i == |names| ==> c == FindPath(rows, names, 0)
      {
        assert names[i..][0] == names[i] && names[i..][1..] == names[i + 1..];
        assert names[0..] == names;
        c := GetConfigureByName(names[i], pid, fault(i));
        if c.None? {
          return false, None;
        }
        pid := c.value.id;
      }
      return true, c;
    }

    method CreateRoot(name: string, fault: bool) returns (ok: bool)
      modifies this
      ensures ok == !fault
      ensures State() == if fault then old(State()) else Insert(old(State()), name, "", DATA_TYPE_CHILD, None, "")
    {
      if fault {
        return false;
      }
      rows, nextId := rows + [Row(nextId, name, "", DATA_TYPE_CHILD, None, "")], nextId + 1;
      return true;
    }

    method CreateNode(parent: Row, name: string, value: string, dataType: nat, description: string, fault: bool)
      returns (node: Option<Row>)
      modifies this
      ensures node == if !fault && Insertable(old(State()), name, Some(parent.id))
                      then Some(Row(old(nextId), name, value, dataType, Some(parent.id), description)) else None
      ensures State() == if fault then old(State())
                         else Insert(old(State()), name, value, dataType, Some(parent.id), description)
    {
      if fault {
        return None;
      }
      node := None;
      if Insertable(State(), name, Some(parent.id)) {
        node := Some(Row(nextId, name, value, dataType, Some(parent.id), description));
        rows := rows + [node.value];
      }
      nextId := nextId + 1;
    }

    /** The first level of CreateConfigure. */
    method EnsureRoot(name: string, fault1: bool, faultNew: bool, fault2: bool) returns (root: Option<Row>)
      modifies this
      ensures (State(), root) == Ensure(old(State()), name, "", DATA_TYPE_CHILD, None, "", fault1, faultNew, fault2)
    {
      root := GetConfigureByName(name, 0, fault1);
      if root.None? {
        var ok := CreateRoot(name, faultNew);
        if !ok {
          return None;
        }
      }
      root := GetConfigureByName(name, 0, fault2);
    }

    /** The second and the third level. */
    method EnsureNode(parent: Row, name: string, value: string, dataType: nat, description: string,
                      fault1: bool, faultNew: bool, fault2: bool) returns (node: Option<Row>)
      modifies this
      ensures (State(), node) ==
              Ensure(old(State()), name, value, dataType, Some(parent.id), description, fault1, faultNew, fault2)
    {
      node := GetConfigureByName(name, parent.id, fault1);
      if node.None? {
        var created := CreateNode(parent, name, value, dataType, description, faultNew);
        if created.None? {
          return None;
        }
      }
      node := GetConfigureByName(name, parent.id, fault2);
    }

    /** CreateConfigure once its root is there. */
    method CreateNodes(root: Row, c: Create, f: Faults) returns (r: Option<Row>)
      requires |c.names| == 3
      modifies this
      ensures (State(), r) == CreateUnderRoot(old(State()), root, c, f)
    {
      var child := EnsureNode(root, c.names[1], "", DATA_TYPE_CHILD, c.description, f.child1, f.newChild, f.child2);
      if child.None? {
        return None;
      }
      r := EnsureNode(child.value, c.names[2], c.value, c.dataType, c.description, f.leaf1, f.newLeaf, f.leaf2);
    }

    method CreateConfigure(c: Create, f: Faults) returns (r: Option<Row>)
      modifies this
      ensures (State(), r) == CreateOnce(old(State()), c, f)
    {
      if |c.names| != 3 {
        return None;
      }
      var root := EnsureRoot(c.names[0], f.root1, f.newRoot, f.root2);
      if root.None? {
        return None;
      }
      r := CreateNodes(root.value, c, f);
    }
  }

  // ---- what every run keeps

  /** The parent links from a row lead, in at most `depth` of them, to a root, and always to older rows. */
  ghost predicate WithinDepth(rows: seq<Row>, r: Row, depth: nat)
    decreases depth
  {
    r.parent == None ||
    (depth > 0 && exists q :: q in rows && r.parent == Some(q.id) && q.id < r.id && WithinDepth(rows, q, depth - 1))
  }

  /** No two rows under the same parent row share a name. */
  ghost predicate NodesUnique(t: Table) {
    forall i, j :: 0 <= i < j < |t.rows| && t.rows[i].parent.Some? ==>
      t.rows[i].name != t.rows[j].name || t.rows[i].parent != t.rows[j].parent
  }

  ghost predicate RootsUnique(t: Table) {
    forall i, j :: 0 <= i < j < |t.rows| && t.rows[i].parent.None? && t.rows[j].parent.None? ==>
      t.rows[i].name != t.rows[j].name
  }

  ghost predicate AllWithinDepth(t: Table) {
    forall r :: r in t.rows ==> WithinDepth(t.rows, r, 2)
  }

  ghost predicate Inv(t: Table) {
    IdsGrow(t) && NodesUnique(t) && AllWithinDepth(t)
  }

  lemma {:induction false} DepthKept(rows: seq<Row>, more: seq<Row>, r: Row, depth: nat)
    requires WithinDepth(rows, r, depth) && rows <= more
    ensures WithinDepth(more, r, depth)
    decreases depth
  {
    if r.parent != None {
      var q :| q in rows && r.parent == Some(q.id) && q.id < r.id && WithinDepth(rows, q, depth - 1);
      DepthKept(rows, more, q, depth - 1);
      assert q in more;
    }
  }

  lemma DepthGrows(rows: seq<Row>, r: Row, depth: nat)
    requires WithinDepth(rows, r, depth)
    ensures WithinDepth(rows, r, depth + 1)
    decreases depth
  {
    if r.parent != None {
      var q :| q in rows && r.parent == Some(q.id) && q.id < r.id && WithinDepth(rows, q, depth - 1);
      DepthGrows(rows, q, depth - 1);
    }
  }

  lemma {:induction false} FindInPrefix(rows: seq<Row>, more: seq<Row>, name: string, pid: nat)
    requires rows <= more && Find(rows, name, pid).Some?
    ensures Find(more, name, pid) == Find(rows, name, pid)
  {
    assert more[0] == rows[0];
    if !Matches(rows[0], name, pid) {
      assert rows[1..] <= more[1..];
      FindInPrefix(rows[1..], more[1..], name, pid);
    }
  }

  ghost predicate ParentAt(rows: seq<Row>, parent: Option<Row>, depth: nat) {
    if parent.None? then depth == 0
    else parent.value in rows && depth > 0 && WithinDepth(rows, parent.value, depth - 1)
  }

  function ParentId(parent: Option<Row>): Option<nat> {
    if parent.Some? then Some(parent.value.id) else None
  }

  function LookupId(parent: Option<Row>): nat {
    if parent.Some? then parent.value.id else 0
  }

  /** What one level comes to: the table it was given or that with one insert, and a row found in it. */
  lemma EnsureShape(t: Table, name: string, value: string, dataType: nat, parent: Option<Row>, description: string,
                    fault1: bool, faultNew: bool, fault2: bool)
    ensures var (t', r) := Ensure(t, name, value, dataType, ParentId(parent), description, fault1, faultNew, fault2);
            (t' == t || t' == Insert(t, name, value, dataType, ParentId(parent), description)) &&
            (r.Some? ==> r == Find(t'.rows, name, LookupId(parent)))
  {
  }

  lemma ParentKept(rows: seq<Row>, more: seq<Row>, parent: Option<Row>, depth: nat)
    requires ParentAt(rows, parent, depth) && rows <= more
    ensures ParentAt(more, parent, depth)
  {
    if parent.Some? {
      DepthKept(rows, more, parent.value, depth - 1);
    }
  }

  /** One level keeps the table in order when the parent is a row within the first two levels; what it
      returns is the row that lookups find, one level deeper than the parent. */
  lemma EnsureKeeps(t: Table, name: string, value: string, dataType: nat, parent: Option<Row>, depth: nat,
                    description: string,
                    fault1: bool, faultNew: bool, fault2: bool)
    requires Inv(t) && depth <= 2 && ParentAt(t.rows, parent, depth)
    ensures var (t', r) := Ensure(t, name, value, dataType, ParentId(parent), description, fault1, faultNew, fault2);
            Inv(t') && t.rows <= t'.rows &&
            (r.Some? ==> r == Find(t'.rows, name, LookupId(parent)) && ParentAt(t'.rows, r, depth + 1))
  {
    EnsureShape(t, name, value, dataType, parent, description, fault1, faultNew, fault2);
    InsertKeeps(t, name, value, dataType, parent, depth, description);
    var (t', r) := Ensure(t, name, value, dataType, ParentId(parent), description, fault1, faultNew, fault2);
    ParentKept(t.rows, t'.rows, parent, depth);
    if r.Some? {
      FoundDepth(t', r.value, name, parent, depth);
    }
  }

  lemma InsertKeeps(t: Table, name: string, value: string, dataType: nat, parent: Option<Row>, depth: nat,
                    description: string)
    requires Inv(t) && depth <= 2 && ParentAt(t.rows, parent, depth)
    ensures var t' := Insert(t, name, value, dataType, ParentId(parent), description);
            Inv(t') && t.rows <= t'.rows
  {
    var pid := ParentId(parent);
    var t' := Insert(t, name, value, dataType, pid, description);
    if Insertable(t, name, pid) {
      var n := t'.rows[|t.rows|];
      forall r | r in t'.rows ensures WithinDepth(t'.rows, r, 2) {
        if r in t.rows {
          DepthKept(t.rows, t'.rows, r, 2);
        } else if parent.Some? {
          assert r == n;
          DepthKept(t.rows, t'.rows, parent.value, depth - 1);
          if depth == 1 { DepthGrows(t'.rows, parent.value, 0); }
          assert WithinDepth(t'.rows, parent.value, 1);
          assert parent.value in t'.rows;
        }
      }
    }
  }

  /** A row found under a parent is one level below it. */
  lemma FoundDepth(t: Table, r: Row, name: string, parent: Option<Row>, depth: nat)
    requires Inv(t) && r in t.rows && Matches(r, name, LookupId(parent)) && ParentAt(t.rows, parent, depth)
    ensures WithinDepth(t.rows, r, depth)
  {
    assert WithinDepth(t.rows, r, 2);
    if r.parent != None {
      var q :| q in t.rows && r.parent == Some(q.id) && q.id < r.id;
      var i :| 0 <= i < |t.rows| && t.rows[i] == q;
      if parent.Some? {
        var j :| 0 <= j < |t.rows| && t.rows[j] == parent.value;
        assert t.rows[i].id == t.rows[j].id;
        assert i == j;
      }
    }
  }

  lemma ChildLevelKeeps(t: Table, child: Row, c: Create, f: Faults)
    requires Inv(t) && |c.names| == 3 && ParentAt(t.rows, Some(child), 2)
    ensures var (t', r) := CreateUnderChild(t, child, c, f);
            Inv(t') && t.rows <= t'.rows && (r.Some? ==> FindPath(t'.rows, c.names[2..], child.id) == r)
  {
    EnsureKeeps(t, c.names[2], c.value, c.dataType, Some(child), 2, c.description, f.leaf1, f.newLeaf, f.leaf2);
    assert c.names[2..][0] == c.names[2];
  }

  lemma RootLevelKeeps(t: Table, root: Row, c: Create, f: Faults)
    requires Inv(t) && |c.names| == 3 && ParentAt(t.rows, Some(root), 1)
    ensures var (t', r) := CreateUnderRoot(t, root, c, f);
            Inv(t') && t.rows <= t'.rows && (r.Some? ==> FindPath(t'.rows, c.names[1..], root.id) == r)
  {
    var (t1, child) := Ensure(t, c.names[1], "", DATA_TYPE_CHILD, Some(root.id), c.description,
                              f.child1, f.newChild, f.child2);
    EnsureKeeps(t, c.names[1], "", DATA_TYPE_CHILD, Some(root), 1, c.description, f.child1, f.newChild, f.child2);
    if child.Some? {
      var (t2, r) := CreateUnderChild(t1, child.value, c, f);
      ChildLevelKeeps(t1, child.value, c, f);
      FindInPrefix(t1.rows, t2.rows, c.names[1], root.id);
      assert c.names[1..][0] == c.names[1] && c.names[1..][1..] == c.names[2..];
    }
  }

  /** One call, whatever operations fail: the table stays in order, existing rows are neither changed nor
      removed, and a row is returned only where looking up the whole path now finds it. */
  lemma CreateKeeps(t: Table, c: Create, f: Faults)
    requires Inv(t)
    ensures var (t', r) := CreateOnce(t, c, f);
            Inv(t') && t.rows <= t'.rows &&
            (r.Some? ==> |c.names| == 3 && FindPath(t'.rows, c.names, 0) == r)
  {
    if |c.names| == 3 {
      var (t1, root) := Ensure(t, c.names[0], "", DATA_TYPE_CHILD, None, "", f.root1, f.newRoot, f.root2);
      EnsureKeeps(t, c.names[0], "", DATA_TYPE_CHILD, None, 0, "", f.root1, f.newRoot, f.root2);
      if root.Some? {
        var (t2, r) := CreateUnderRoot(t1, root.value, c, f);
        RootLevelKeeps(t1, root.value, c, f);
        FindInPrefix(t1.rows, t2.rows, c.names[0], 0);
      }
    }
  }

  /** A call returned r: what was found before, with the table untouched, or a new row with the call's
      last name, value and type. */
  ghost predicate EndsAt(t: Table, c: Create, r: Option<Row>, t': Table, before: Option<Row>)
    requires |c.names| == 3
  {
    r.Some? && (if before.Some? then t' == t && r == before
                else r.value.id >= t.nextId && r.value in t'.rows &&
                     r.value == Row(r.value.id, c.names[2], c.value, c.dataType, r.value.parent, c.description))
  }

  lemma ChildLevelReliably(t: Table, child: Row, c: Create)
    requires Inv(t) && |c.names| == 3 && ParentAt(t.rows, Some(child), 2)
    ensures var (t', r) := CreateUnderChild(t, child, c, NO_FAULTS);
            EndsAt(t, c, r, t', FindPath(t.rows, c.names[2..], child.id))
  {
    EnsureReliably(t, c.names[2], c.value, c.dataType, Some(child), c.description);
    assert c.names[2..][0] == c.names[2];
  }

  lemma RootLevelReliably(t: Table, root: Row, c: Create)
    requires Inv(t) && |c.names| == 3 && ParentAt(t.rows, Some(root), 1)
    ensures var (t', r) := CreateUnderRoot(t, root, c, NO_FAULTS);
            EndsAt(t, c, r, t', FindPath(t.rows, c.names[1..], root.id))
  {
    var (t1, child) := Ensure(t, c.names[1], "", DATA_TYPE_CHILD, Some(root.id), c.description, false, false, false);
    EnsureKeeps(t, c.names[1], "", DATA_TYPE_CHILD, Some(root), 1, c.description, false, false, false);
    EnsureReliably(t, c.names[1], "", DATA_TYPE_CHILD, Some(root), c.description);
    ChildLevelReliably(t1, child.value, c);
    assert c.names[1..][0] == c.names[1] && c.names[1..][1..] == c.names[2..];
    if t1 != t {
      NewHasNoChildren(t, child.value, c.names[2]);
      assert c.names[2..][0] == c.names[2];
    }
  }

  /** With a database that answers, a call for a path that exists changes nothing and returns its end; a
      call for any other path returns a new row, at the end of that path, with the value given. */
  lemma CreateReliably(t: Table, c: Create)
    requires Inv(t) && |c.names| == 3
    ensures var (t', r) := CreateOnce(t, c, NO_FAULTS);
            FindPath(t'.rows, c.names, 0) == r && EndsAt(t, c, r, t', FindPath(t.rows, c.names, 0))
  {
    var (t1, root) := Ensure(t, c.names[0], "", DATA_TYPE_CHILD, None, "", false, false, false);
    EnsureKeeps(t, c.names[0], "", DATA_TYPE_CHILD, None, 0, "", false, false, false);
    EnsureReliably(t, c.names[0], "", DATA_TYPE_CHILD, None, "");
    CreateKeeps(t, c, NO_FAULTS);
    RootLevelReliably(t1, root.value, c);
    if t1 != t {
      NewHasNoChildren(t, root.value, c.names[1]);
      assert c.names[1..][0] == c.names[1];
    }
  }

  /** Nothing is found under a row that has just been added. */
  lemma NewHasNoChildren(t: Table, n: Row, name: string)
    requires Inv(t) && n.id == t.nextId && (n.parent.Some? ==> n.parent.value < n.id)
    ensures Find(t.rows + [n], name, n.id) == None
  {
    forall r | r in t.rows + [n] ensures !Matches(r, name, n.id) {
      if r in t.rows {
        assert WithinDepth(t.rows, r, 2);
        var i :| 0 <= i < |t.rows| && t.rows[i] == r;
      }
    }
  }

  /** One level with a database that answers: the row found, or else a new row, which nothing in the
      table was found under. */
  lemma EnsureReliably(t: Table, name: string, value: string, dataType: nat, parent: Option<Row>, description: string)
    requires Inv(t) && (parent.Some? ==> parent.value.id >= 1)
    ensures var (t', r) := Ensure(t, name, value, dataType, ParentId(parent), description, false, false, false);
            r.Some? &&
            (Find(t.rows, name, LookupId(parent)).Some? ==> t' == t && r == Find(t.rows, name, LookupId(parent))) &&
            (Find(t.rows, name, LookupId(parent)).None? ==>
               r.value == Row(t.nextId, name, value, dataType, ParentId(parent), description) &&
               t' == Table(t.rows + [r.value], t.nextId + 1))
  {
    if Find(t.rows, name, LookupId(parent)).None? {
      var n := Row(t.nextId, name, value, dataType, ParentId(parent), description);
      assert forall i :: 0 <= i < |t.rows| ==> t.rows[i] in t.rows;
      assert Insertable(t, name, ParentId(parent));
      FindAppended(t.rows, n, name, LookupId(parent));
    }
  }

  lemma {:induction false} FindAppended(rows: seq<Row>, n: Row, name: string, pid: nat)
    requires Find(rows, name, pid).None? && Matches(n, name, pid)
    ensures Find(rows + [n], name, pid) == Some(n)
  {
    var more := rows + [n];
    if rows != [] {
      assert more[0] == rows[0] && more[1..] == rows[1..] + [n];
      FindAppended(rows[1..], n, name, pid);
    }
  }

  // ---- runs

  function CreateAll(t: Table, calls: seq<(Create, Faults)>): Table
    decreases |calls|
  {
    if calls == [] then t else CreateAll(CreateOnce(t, calls[0].0, calls[0].1).0, calls[1..])
  }

  lemma {:induction false} CreateAllKeeps(t: Table, calls: seq<(Create, Faults)>)
    requires Inv(t)
    ensures Inv(CreateAll(t, calls)) && t.rows <= CreateAll(t, calls).rows
    decreases |calls|
  {
    if calls != [] {
      CreateKeeps(t, calls[0].0, calls[0].1);
      CreateAllKeeps(CreateOnce(t, calls[0].0, calls[0].1).0, calls[1..]);
    }
  }

  lemma {:induction false} PathInPrefix(rows: seq<Row>, more: seq<Row>, names: seq<string>, pid: nat)
    requires |names| > 0 && rows <= more && FindPath(rows, names, pid).Some?
    ensures FindPath(more, names, pid) == FindPath(rows, names, pid)
    decreases |names|
  {
    FindInPrefix(rows, more, names[0], pid);
    if |names| > 1 {
      PathInPrefix(rows, more, names[1..], Find(rows, names[0], pid).value.id);
    }
  }

  /** What a successful call returns, GetConfigureByNames of that path returns ever after, whatever calls
      follow and whatever fails in them; the row itself never changes. */
  lemma CreatedStaysFound(t: Table, c: Create, f: Faults, later: seq<(Create, Faults)>)
    requires Inv(t) && CreateOnce(t, c, f).1.Some?
    ensures |c.names| == 3 &&
            FindPath(CreateAll(CreateOnce(t, c, f).0, later).rows, c.names, 0) == CreateOnce(t, c, f).1
  {
    var (t', r) := CreateOnce(t, c, f);
    CreateKeeps(t, c, f);
    CreateAllKeeps(t', later);
    PathInPrefix(t'.rows, CreateAll(t', later).rows, c.names, 0);
  }

  // ---- what is found and what is added, by the fields of the rows

  /** Rows of the table that carry the names and lead down from pid, each the parent of the next. */
  ghost predicate Leads(rows: seq<Row>, names: seq<string>, pid: nat, chain: seq<Row>)
    decreases |names|
  {
    |chain| == |names| &&
    (names == [] ||
     (chain[0] in rows && chain[0].name == names[0] && UnderId(chain[0], pid) &&
      Leads(rows, names[1..], chain[0].id, chain[1..])))
  }

  /** A path that is found has its rows in the table. */
  lemma {:induction false} PathOnFields(rows: seq<Row>, names: seq<string>, pid: nat) returns (chain: seq<Row>)
    requires |names| > 0 && FindPath(rows, names, pid).Some?
    ensures Leads(rows, names, pid, chain) && Some(chain[|chain| - 1]) == FindPath(rows, names, pid)
    decreases |names|
  {
    var r := Find(rows, names[0], pid).value;
    MatchesOnFields(names[0], pid);
    var rest := [];
    if |names| > 1 {
      rest := PathOnFields(rows, names[1..], r.id);
    }
    chain := [r] + rest;
    assert chain[1..] == rest;
  }

  /** Two rows of one name under one row id are the same row. */
  lemma OneUnder(t: Table, a: Row, b: Row, pid: nat)
    requires Inv(t) && (pid == 0 ==> RootsUnique(t)) && a in t.rows && b in t.rows
    requires a.name == b.name && UnderId(a, pid) && UnderId(b, pid)
    ensures a == b
  {
    IdsPositive(t);
    assert WithinDepth(t.rows, a, 2) && WithinDepth(t.rows, b, 2);
    var i :| 0 <= i < |t.rows| && t.rows[i] == a;
    var j :| 0 <= j < |t.rows| && t.rows[j] == b;
  }

  /** And with distinct roots a path whose rows are in the table is found, with the last of them at its end. */
  lemma {:induction false} LeadsFound(t: Table, names: seq<string>, pid: nat, chain: seq<Row>)
    requires Inv(t) && (pid == 0 ==> RootsUnique(t)) && |names| > 0 && Leads(t.rows, names, pid, chain)
    ensures FindPath(t.rows, names, pid) == Some(chain[|chain| - 1])
    decreases |names|
  {
    IdsPositive(t);
    MatchesOnFields(names[0], pid);
    assert Find(t.rows, names[0], pid).Some?;
    OneUnder(t, Find(t.rows, names[0], pid).value, chain[0], pid);
    if |names| > 1 {
      LeadsFound(t, names[1..], chain[0].id, chain[1..]);
    }
  }

  lemma LeadsOfThree(rows: seq<Row>, names: seq<string>, chain: seq<Row>)
    requires |names| == 3 && Leads(rows, names, 0, chain) && forall r :: r in rows ==> r.id > 0
    ensures var root, child, r := chain[0], chain[1], chain[2];
            root in rows && child in rows && r in rows &&
            root.name == names[0] && child.name == names[1] && r.name == names[2] &&
            UnderId(root, 0) && child.parent == Some(root.id) && r.parent == Some(child.id)
  {
    var names1, chain1 := names[1..], chain[1..];
    assert Leads(rows, names1, chain[0].id, chain1);
    assert Leads(rows, names1[1..], chain1[0].id, chain1[1..]);
  }

  /** Whatever fails in a call, the row that it returns carries the path's last name, its parent the middle
      one and its parent's parent, which has none, the first. */
  lemma CreatedOnFields(t: Table, c: Create, f: Faults) returns (root: Row, child: Row)
    requires Inv(t) && CreateOnce(t, c, f).1.Some?
    ensures var rows, r := CreateOnce(t, c, f).0.rows, CreateOnce(t, c, f).1.value;
            |c.names| == 3 && root in rows && child in rows && r in rows &&
            root.name == c.names[0] && child.name == c.names[1] && r.name == c.names[2] &&
            root.parent.None? && child.parent == Some(root.id) && r.parent == Some(child.id)
  {
    var rows := CreateOnce(t, c, f).0.rows;
    CreateKeeps(t, c, f);
    IdsPositive(CreateOnce(t, c, f).0);
    var chain := PathOnFields(rows, c.names, 0);
    LeadsOfThree(rows, c.names, chain);
    root, child := chain[0], chain[1];
    assert WithinDepth(rows, root, 2);
  }

  lemma IdsPositive(t: Table)
    requires IdsGrow(t)
    ensures forall r :: r in t.rows ==> r.id > 0
  {
  }

  /** One level adds its row at the end, or none. */
  lemma EnsureAdds(t: Table, name: string, value: string, dataType: nat, parent: Option<Row>, description: string,
                   fault1: bool, faultNew: bool, fault2: bool) returns (added: seq<Row>)
    ensures var t' := Ensure(t, name, value, dataType, ParentId(parent), description, fault1, faultNew, fault2).0;
            t'.rows == t.rows + added && (added != [] ==> t'.nextId == t.nextId + 1)
    ensures added == [] || added == [Row(t.nextId, name, value, dataType, ParentId(parent), description)]
  {
    var t' := Ensure(t, name, value, dataType, ParentId(parent), description, fault1, faultNew, fault2).0;
    added := t'.rows[|t.rows|..];
  }

  /** The row of the third level, if one is added under child. */
  ghost predicate LeafAdded(rows: seq<Row>, c: Create, leaf: seq<Row>, child: Row)
    requires |c.names| == 3
  {
    leaf != [] ==>
      leaf == [Row(leaf[0].id, c.names[2], c.value, c.dataType, Some(child.id), c.description)] &&
      child in rows && child.name == c.names[1] && child.parent.Some?
  }

  /** The row of the second level, if one is added under root. */
  ghost predicate MiddleAdded(rows: seq<Row>, c: Create, middle: seq<Row>, root: Row)
    requires |c.names| == 3
  {
    middle != [] ==>
      middle == [Row(middle[0].id, c.names[1], "", 5, Some(root.id), c.description)] &&
      root in rows && root.name == c.names[0] && UnderId(root, 0)
  }

  lemma AddedUnderRoot(t: Table, root: Row, c: Create, f: Faults)
    returns (middle: seq<Row>, leaf: seq<Row>, child: Row)
    requires |c.names| == 3 && root in t.rows && root.id > 0 && root.name == c.names[0] && UnderId(root, 0)
    ensures CreateUnderRoot(t, root, c, f).0.rows == t.rows + middle + leaf
    ensures MiddleAdded(t.rows, c, middle, root) && LeafAdded(t.rows + middle, c, leaf, child)
  {
    var (t', r) := Ensure(t, c.names[1], "", DATA_TYPE_CHILD, Some(root.id), c.description,
                          f.child1, f.newChild, f.child2);
    middle := EnsureAdds(t, c.names[1], "", DATA_TYPE_CHILD, Some(root), c.description, f.child1, f.newChild, f.child2);
    leaf, child := [], root;
    if r.Some? {
      child := r.value;
      EnsureShape(t, c.names[1], "", DATA_TYPE_CHILD, Some(root), c.description, f.child1, f.newChild, f.child2);
      MatchesOnFields(c.names[1], root.id);
      leaf := EnsureAdds(t', c.names[2], c.value, c.dataType, Some(child), c.description, f.leaf1, f.newLeaf, f.leaf2);
    } else {
      assert t.rows + middle + [] == t.rows + middle;
    }
  }

  /** The rows that one call adds, whatever fails: at most one a level, an empty value of data type 5 on the
      upper two, and the description below the root. */
  lemma AddedOnFields(t: Table, c: Create, f: Faults)
    returns (top: seq<Row>, middle: seq<Row>, leaf: seq<Row>, root: Row, child: Row)
    requires Inv(t) && |c.names| == 3
    ensures CreateOnce(t, c, f).0.rows == t.rows + top + middle + leaf
    ensures top == [] || top == [Row(t.nextId, c.names[0], "", 5, None, "")]
    ensures MiddleAdded(t.rows + top, c, middle, root) && LeafAdded(t.rows + top + middle, c, leaf, child)
  {
    var (t', r) := Ensure(t, c.names[0], "", DATA_TYPE_CHILD, None, "", f.root1, f.newRoot, f.root2);
    top := EnsureAdds(t, c.names[0], "", DATA_TYPE_CHILD, None, "", f.root1, f.newRoot, f.root2);
    EnsureKeeps(t, c.names[0], "", DATA_TYPE_CHILD, None, 0, "", f.root1, f.newRoot, f.root2);
    if r.Some? {
      root := r.value;
      MatchesOnFields(c.names[0], 0);
      IdsPositive(t');
      middle, leaf, child := AddedUnderRoot(t', root, c, f);
    } else {
      middle, leaf, root := [], [], Row(0, "", "", 0, None, "");
      child := root;
      assert t.rows + top + [] + [] == t.rows + top;
    }
  }

  // ---- which failures a call survives

  /** A level whose name is there, or not, gets past its failures: the second lookup has to succeed, and either
      the first one finds the name or the insert goes through, which under a row it does only where nothing of
      the name is there. */
  ghost predicate Passes(there: bool, isRoot: bool, fault1: bool, faultNew: bool, fault2: bool) {
    !fault2 && ((there && !fault1) || (!faultNew && (there ==> isRoot)))
  }

  lemma EnsureSucceeds(t: Table, name: string, value: string, dataType: nat, parent: Option<Row>, description: string,
                       fault1: bool, faultNew: bool, fault2: bool)
    requires Inv(t) && (parent.Some? ==> parent.value.id >= 1)
    ensures var there := Find(t.rows, name, LookupId(parent)).Some?;
            Ensure(t, name, value, dataType, ParentId(parent), description, fault1, faultNew, fault2).1.Some? <==>
            Passes(there, parent.None?, fault1, faultNew, fault2)
  {
    var n := Row(t.nextId, name, value, dataType, ParentId(parent), description);
    assert forall i :: 0 <= i < |t.rows| ==> t.rows[i] in t.rows;
    if Find(t.rows, name, LookupId(parent)).None? {
      FindAppended(t.rows, n, name, LookupId(parent));
    } else {
      FindInPrefix(t.rows, t.rows + [n], name, LookupId(parent));
    }
  }

  lemma {:induction false} FindBesides(rows: seq<Row>, n: Row, name: string, pid: nat)
    requires !Matches(n, name, pid)
    ensures Find(rows + [n], name, pid) == Find(rows, name, pid)
  {
    var more := rows + [n];
    if rows != [] {
      assert more[0] == rows[0] && more[1..] == rows[1..] + [n];
      FindBesides(rows[1..], n, name, pid);
    }
  }

  /** A new root is on no path below another row. */
  lemma {:induction false} PathBesides(rows: seq<Row>, n: Row, names: seq<string>, pid: nat)
    requires |names| > 0 && pid > 0 && n.parent == None && forall r :: r in rows ==> r.id > 0
    ensures FindPath(rows + [n], names, pid) == FindPath(rows, names, pid)
    decreases |names|
  {
    FindBesides(rows, n, names[0], pid);
    if Find(rows, names[0], pid).Some? && |names| > 1 {
      PathBesides(rows, n, names[1..], Find(rows, names[0], pid).value.id);
    }
  }

  /** The second and the third level, by what is found below the root before them. */
  lemma UnderRootSucceeds(t: Table, root: Row, c: Create, f: Faults)
    requires Inv(t) && |c.names| == 3 && ParentAt(t.rows, Some(root), 1) && root.id >= 1
    ensures CreateUnderRoot(t, root, c, f).1.Some? <==>
            Passes(Find(t.rows, c.names[1], root.id).Some?, false, f.child1, f.newChild, f.child2) &&
            Passes(FindPath(t.rows, c.names[1..], root.id).Some?, false, f.leaf1, f.newLeaf, f.leaf2)
  {
    var (t', child) := Ensure(t, c.names[1], "", DATA_TYPE_CHILD, Some(root.id), c.description,
                              f.child1, f.newChild, f.child2);
    EnsureSucceeds(t, c.names[1], "", DATA_TYPE_CHILD, Some(root), c.description, f.child1, f.newChild, f.child2);
    if child.Some? {
      EnsureKeeps(t, c.names[1], "", DATA_TYPE_CHILD, Some(root), 1, c.description, f.child1, f.newChild, f.child2);
      IdsPositive(t');
      EnsureSucceeds(t', c.names[2], c.value, c.dataType, Some(child.value), c.description,
                     f.leaf1, f.newLeaf, f.leaf2);
      ChildSeen(t, root, c, f);
    }
  }

  /** What is found under the child is what was found on the way to it. */
  lemma ChildSeen(t: Table, root: Row, c: Create, f: Faults)
    requires Inv(t) && |c.names| == 3 && ParentAt(t.rows, Some(root), 1) && root.id >= 1
    requires Ensure(t, c.names[1], "", DATA_TYPE_CHILD, Some(root.id), c.description,
                    f.child1, f.newChild, f.child2).1.Some?
    ensures var (t', child) := Ensure(t, c.names[1], "", DATA_TYPE_CHILD, Some(root.id), c.description,
                                      f.child1, f.newChild, f.child2);
            Find(t'.rows, c.names[2], child.value.id).Some? <==> FindPath(t.rows, c.names[1..], root.id).Some?
  {
    var (t', child) := Ensure(t, c.names[1], "", DATA_TYPE_CHILD, Some(root.id), c.description,
                              f.child1, f.newChild, f.child2);
    var names := c.names[1..];
    assert names[0] == c.names[1] && |names[1..]| == 1 && names[1..][0] == c.names[2];
    EnsureShape(t, c.names[1], "", DATA_TYPE_CHILD, Some(root), c.description, f.child1, f.newChild, f.child2);
    if Find(t.rows, c.names[1], root.id).Some? {
      FindInPrefix(t.rows, t'.rows, c.names[1], root.id);
      var r := Find(t.rows, c.names[1], root.id).value;
      assert r in t.rows && r.name == c.names[1] && r.parent == Some(root.id);
      assert t'.rows == t.rows;
    } else {
      var n := Row(t.nextId, c.names[1], "", DATA_TYPE_CHILD, Some(root.id), c.description);
      assert t'.rows == t.rows + [n];
      FindAppended(t.rows, n, c.names[1], root.id);
      NewHasNoChildren(t, n, c.names[2]);
    }
  }

  lemma PathSteps(rows: seq<Row>, names: seq<string>)
    requires |names| == 3
    ensures FindPath(rows, names[..1], 0) == Find(rows, names[0], 0)
    ensures match Find(rows, names[0], 0)
            case None => FindPath(rows, names[..2], 0).None? && FindPath(rows, names, 0).None?
            case Some(r) =>
              FindPath(rows, names[..2], 0) == Find(rows, names[1], r.id) &&
              FindPath(rows, names, 0) == FindPath(rows, names[1..], r.id)
  {
    var two := names[..2];
    assert two[0] == names[0] && |two[1..]| == 1 && two[1..][0] == names[1];
  }

  /** Where the first level gets past its failures, the lower levels meet below its root what was there
      before: a root that was there stays the one found, and a new one has nothing below it. */
  lemma RootSeen(t: Table, c: Create, f: Faults)
    requires Inv(t) && |c.names| == 3
    requires Ensure(t, c.names[0], "", DATA_TYPE_CHILD, None, "", f.root1, f.newRoot, f.root2).1.Some?
    ensures var (t', root) := Ensure(t, c.names[0], "", DATA_TYPE_CHILD, None, "", f.root1, f.newRoot, f.root2);
            (Find(t'.rows, c.names[1], root.value.id).Some? <==> FindPath(t.rows, c.names[..2], 0).Some?) &&
            (FindPath(t'.rows, c.names[1..], root.value.id).Some? <==> FindPath(t.rows, c.names, 0).Some?)
  {
    var (t', root) := Ensure(t, c.names[0], "", DATA_TYPE_CHILD, None, "", f.root1, f.newRoot, f.root2);
    var n := Row(t.nextId, c.names[0], "", DATA_TYPE_CHILD, None, "");
    var below := c.names[1..];
    assert below[0] == c.names[1];
    PathSteps(t.rows, c.names);
    IdsPositive(t);
    if Find(t.rows, c.names[0], 0).Some? {
      var r := Find(t.rows, c.names[0], 0).value;
      FindInPrefix(t.rows, t'.rows, c.names[0], 0);
      if t' != t {
        FindBesides(t.rows, n, c.names[1], r.id);
        PathBesides(t.rows, n, below, r.id);
      }
    } else {
      FindAppended(t.rows, n, c.names[0], 0);
      NewHasNoChildren(t, n, c.names[1]);
    }
  }

  /** A call returns a row exactly when each of its three levels gets past its failures, by what was found
      at the start of its path before the call. */
  lemma CreateSucceedsExactly(t: Table, c: Create, f: Faults)
    requires Inv(t)
    ensures CreateOnce(t, c, f).1.Some? <==>
            |c.names| == 3 &&
            Passes(FindPath(t.rows, c.names[..1], 0).Some?, true, f.root1, f.newRoot, f.root2) &&
            Passes(FindPath(t.rows, c.names[..2], 0).Some?, false, f.child1, f.newChild, f.child2) &&
            Passes(FindPath(t.rows, c.names[..3], 0).Some?, false, f.leaf1, f.newLeaf, f.leaf2)
  {
    if |c.names| == 3 {
      var (t', root) := Ensure(t, c.names[0], "", DATA_TYPE_CHILD, None, "", f.root1, f.newRoot, f.root2);
      PathSteps(t.rows, c.names);
      assert c.names[..3] == c.names;
      EnsureSucceeds(t, c.names[0], "", DATA_TYPE_CHILD, None, "", f.root1, f.newRoot, f.root2);
      if root.Some? {
        EnsureKeeps(t, c.names[0], "", DATA_TYPE_CHILD, None, 0, "", f.root1, f.newRoot, f.root2);
        IdsPositive(t');
        RootSeen(t, c, f);
        UnderRootSucceeds(t', root.value, c, f);
      }
    }
  }

  function RowById(rows: seq<Row>, id: nat): Option<Row> {
    if rows == [] then None else if rows[0].id == id then Some(rows[0]) else RowById(rows[1..], id)
  }

  lemma {:induction false} RowByIdFinds(rows: seq<Row>, q: Row)
    requires q in rows && forall i, j :: 0 <= i < j < |rows| ==> rows[i].id < rows[j].id
    ensures RowById(rows, q.id) == Some(q)
  {
    if rows[0] != q {
      assert q in rows[1..];
      var i :| 0 <= i < |rows| && rows[i] == q;
      assert rows[0].id < rows[i].id;
      RowByIdFinds(rows[1..], q);
    }
  }

  /** In every table that calls have built from the empty one, following parent ids from a row ends at a
      root after at most two steps, each to a smaller id. */
  lemma WalkEndsAtRoot(calls: seq<(Create, Faults)>, r: Row)
    requires r in CreateAll(Table([], 1), calls).rows && r.parent.Some?
    ensures var rows := CreateAll(Table([], 1), calls).rows;
            var up := RowById(rows, r.parent.value);
            up.Some? && up.value.id < r.id &&
            (up.value.parent.Some? ==>
               var top := RowById(rows, up.value.parent.value);
               top.Some? && top.value.id < up.value.id && top.value.parent.None?)
  {
    CreateAllKeeps(Table([], 1), calls);
    WalkUp(CreateAll(Table([], 1), calls), r);
  }

  lemma WalkUp(t: Table, r: Row)
    requires Inv(t) && r in t.rows && r.parent.Some?
    ensures var up := RowById(t.rows, r.parent.value);
            up.Some? && up.value.id < r.id &&
            (up.value.parent.Some? ==>
               var top := RowById(t.rows, up.value.parent.value);
               top.Some? && top.value.id < up.value.id && top.value.parent.None?)
  {
    assert WithinDepth(t.rows, r, 2);
    var q := StepUp(t, r, 2);
    if q.parent.Some? {
      var top := StepUp(t, q, 1);
    }
  }

  lemma StepUp(t: Table, r: Row, depth: nat) returns (q: Row)
    requires IdsGrow(t) && r in t.rows && r.parent.Some? && WithinDepth(t.rows, r, depth)
    ensures depth >= 1 && q in t.rows && WithinDepth(t.rows, q, depth - 1)
    ensures RowById(t.rows, r.parent.value) == Some(q) && q.id < r.id
  {
    q :| q in t.rows && r.parent == Some(q.id) && q.id < r.id && WithinDepth(t.rows, q, depth - 1);
    RowByIdFinds(t.rows, q);
  }

  // ---- duplicate roots

  lemma EnsureNodeKeepsRoots(t: Table, name: string, value: string, dataType: nat, parent: nat, description: string,
                             fault1: bool, faultNew: bool, fault2: bool)
    ensures RootsUnique(Ensure(t, name, value, dataType, Some(parent), description, fault1, faultNew, fault2).0) <==>
            RootsUnique(t)
  {
    var t' := Ensure(t, name, value, dataType, Some(parent), description, fault1, faultNew, fault2).0;
    if RootsUnique(t') {
      forall i, j | 0 <= i < j < |t.rows| && t.rows[i].parent.None? && t.rows[j].parent.None?
        ensures t.rows[i].name != t.rows[j].name
      {
        assert t'.rows[i] == t.rows[i] && t'.rows[j] == t.rows[j];
      }
    }
  }

  lemma EnsureRootKeepsRoots(t: Table, name: string, fault1: bool, faultNew: bool, fault2: bool)
    requires Inv(t) && RootsUnique(t)
    ensures RootsUnique(Ensure(t, name, "", DATA_TYPE_CHILD, None, "", fault1, faultNew, fault2).0) <==>
            !(fault1 && !faultNew && Find(t.rows, name, 0).Some?)
  {
    var t' := Ensure(t, name, "", DATA_TYPE_CHILD, None, "", fault1, faultNew, fault2).0;
    if t' != t {
      var n := Row(t.nextId, name, "", DATA_TYPE_CHILD, None, "");
      assert t'.rows == t.rows + [n];
      RootsUniqueAppended(t, n);
    }
  }

  lemma RootsUniqueAppended(t: Table, n: Row)
    requires Inv(t) && RootsUnique(t) && n.parent == None
    ensures RootsUnique(Table(t.rows + [n], t.nextId + 1)) <==> Find(t.rows, n.name, 0) == None
  {
    var rows := t.rows + [n];
    if Find(t.rows, n.name, 0).Some? {
      var r := Find(t.rows, n.name, 0).value;
      FoundDepth(t, r, n.name, None, 0);
      var i :| 0 <= i < |t.rows| && t.rows[i] == r;
      assert rows[i] == r && rows[|t.rows|] == n;
    } else {
      assert forall i :: 0 <= i < |t.rows| ==> t.rows[i] in t.rows;
    }
  }

  /** The table's index does not bind roots. One call makes a second root of an existing name exactly when
      its first lookup fails although the root is there, and the insert then succeeds. */
  lemma DuplicateRootExactly(t: Table, c: Create, f: Faults)
    requires Inv(t) && RootsUnique(t)
    ensures RootsUnique(CreateOnce(t, c, f).0) <==>
            !(|c.names| == 3 && f.root1 && !f.newRoot && Find(t.rows, c.names[0], 0).Some?)
  {
    if |c.names| == 3 {
      var (t1, root) := Ensure(t, c.names[0], "", DATA_TYPE_CHILD, None, "", f.root1, f.newRoot, f.root2);
      EnsureRootKeepsRoots(t, c.names[0], f.root1, f.newRoot, f.root2);
      if root.Some? {
        UnderRootKeepsRoots(t1, root.value, c, f);
      }
    }
  }

  /** Such a call, on the smallest tree: its first lookup of the root times out, and there are two. */
  lemma TwoRoots()
    ensures var root := Row(1, "mail", "", DATA_TYPE_CHILD, None, "");
            var t, c := Table([root], 2), Create("v", "", 0, ["mail", "smtp", "port"]);
            Inv(t) && RootsUnique(t) && !RootsUnique(CreateOnce(t, c, NO_FAULTS.(root1 := true)).0)
  {
    var root := Row(1, "mail", "", DATA_TYPE_CHILD, None, "");
    var t, c := Table([root], 2), Create("v", "", 0, ["mail", "smtp", "port"]);
    assert Matches(root, "mail", 0) && Find(t.rows, "mail", 0) == Some(root);
    assert WithinDepth(t.rows, root, 2);
    DuplicateRootExactly(t, c, NO_FAULTS.(root1 := true));
  }

  lemma UnderRootKeepsRoots(t: Table, root: Row, c: Create, f: Faults)
    requires |c.names| == 3
    ensures RootsUnique(CreateUnderRoot(t, root, c, f).0) <==> RootsUnique(t)
  {
    var (t', child) := Ensure(t, c.names[1], "", DATA_TYPE_CHILD, Some(root.id), c.description,
                              f.child1, f.newChild, f.child2);
    EnsureNodeKeepsRoots(t, c.names[1], "", DATA_TYPE_CHILD, root.id, c.description, f.child1, f.newChild, f.child2);
    if child.Some? {
      EnsureNodeKeepsRoots(t', c.names[2], c.value, c.dataType, child.value.id, c.description,
                           f.leaf1, f.newLeaf, f.leaf2);
    }
  }
}
