/** Dotted keys as paths in a JSON tree: looking up, creating the objects on the way, and what
    one write leaves alone. */
module ConfigTree {
  import opened Common
  import opened ConfigStore

  type Path = seq<string>
  type Members = map<string, Node>

  // ---------- splitting keys ----------

  function Fields(s: string): (r: Path)
    ensures |r| >= 1
  {
    if s == "" then [""]
    else
      var rest := Fields(s[1..]);
      if s[0] == '.' then [""] + rest else [[s[0]] + rest[0]] + rest[1..]
  }

  /** `g_strsplit(key, ".", -1)`. */
  function Split(key: string): Path {
    if key == "" then [] else Fields(key)
  }

  function Join(p: Path): string {
    if p == [] then "" else if |p| == 1 then p[0] else p[0] + "." + Join(p[1..])
  }

  lemma {:induction false} JoinFields(s: string)
    ensures Join(Fields(s)) == s
  {
    if s != "" {
      var rest := Fields(s[1..]);
      JoinFields(s[1..]);
      if s[0] == '.' {
        assert Fields(s)[1..] == rest;
        assert [s[0]] + s[1..] == s;
      } else {
        assert Fields(s)[1..] == rest[1..];
        assert [s[0]] + s[1..] == s;
        if |rest| > 1 {
          assert [s[0]] + rest[0] + "." + Join(rest[1..]) == [s[0]] + (rest[0] + "." + Join(rest[1..]));
        }
      }
    }
  }

  /** Different keys have different paths. */
  lemma SplitInjective(a: string, b: string)
    requires Split(a) == Split(b)
    ensures a == b
  {
    JoinFields(a);
    JoinFields(b);
  }

  // ---------- trees ----------

  /** `json_get_by_path` from the node on. */
  function Lookup(node: Node, path: Path): Option<Node>
    decreases |path|
  {
    if path == [] then Some(node)
    else if !node.ObjectNode? || path[0] !in node.members then None
    else Lookup(node.members[path[0]], path[1..])
  }

  /** Whatever lies on the way to the leaf is an object, or not there yet. */
  predicate Writable(members: Members, path: Path)
    decreases |path|
  {
    |path| <= 1 || path[0] !in members ||
    (members[path[0]].ObjectNode? && Writable(members[path[0]].members, path[1..]))
  }

  /** `json_get_or_create` down to the leaf's object, then `json_object_set_member`. Where something
      that is no object is in the way, nothing is written. */
  function Put(members: Members, path: Path, value: Node): Members
    requires path != []
    decreases |path|
  {
    if |path| == 1 then members[path[0] := value]
    else if path[0] !in members then members[path[0] := ObjectNode(Put(map[], path[1..], value))]
    else if members[path[0]].ObjectNode? then
      members[path[0] := ObjectNode(Put(members[path[0]].members, path[1..], value))]
    else members
  }

  predicate Unrelated(p: Path, q: Path) {
    !(p <= q) && !(q <= p)
  }

  /** What is written is found under its path if and only if the path is writable; otherwise the tree
      stays as it was. */
  lemma {:induction false} PutFound(members: Members, path: Path, value: Node)
    requires path != []
    ensures Lookup(ObjectNode(Put(members, path, value)), path) == Some(value) <==> Writable(members, path)
    ensures !Writable(members, path) ==>
      Put(members, path, value) == members && Lookup(ObjectNode(members), path) == None
    decreases |path|
  {
    if |path| == 1 {
      assert Lookup(value, path[1..]) == Some(value);
    } else if path[0] !in members {
      PutFound(map[], path[1..], value);
    } else if members[path[0]].ObjectNode? {
      PutFound(members[path[0]].members, path[1..], value);
      assert members[path[0] := members[path[0]]] == members;
    }
  }

  /** A file edited by hand to `{"a": 1}` never takes the key `a.b`. */
  lemma ScalarInTheWay(v: Node)
    ensures Split("a.b") == ["a", "b"]
    ensures Put(map["a" := IntNode(1)], ["a", "b"], v) == map["a" := IntNode(1)]
  {
    var none: Path := [];
    assert "b"[1..] == "" && ".b"[1..] == "b" && "a.b"[1..] == ".b" && "b" + "" == "b" && "a" + "" == "a";
    assert [""][1..] == none && ["b"] + none == ["b"] && ["", "b"][1..] == ["b"];
    assert Fields("") == [""];
    assert Fields("b") == ["b"];
    assert Fields(".b") == ["", "b"];
    assert Fields("a.b") == ["a", "b"];
  }

  lemma UnrelatedTails(p: Path, q: Path)
    requires Unrelated(p, q) && p[0] == q[0]
    ensures Unrelated(p[1..], q[1..])
  {
    assert p == [p[0]] + p[1..] && q == [q[0]] + q[1..];
  }

  /** A write changes no path that is neither above nor below it, whatever the tree. */
  lemma {:induction false} PutElsewhere(members: Members, path: Path, value: Node, q: Path)
    requires path != [] && Unrelated(path, q)
    ensures Lookup(ObjectNode(Put(members, path, value)), q) == Lookup(ObjectNode(members), q)
    decreases |path|
  {
    if q[0] == path[0] {
      UnrelatedTails(path, q);
      assert |path| > 1 && |q| > 1;
      if path[0] !in members {
        PutElsewhere(map[], path[1..], value, q[1..]);
        assert Lookup(ObjectNode(map[]), q[1..]) == None;
      } else if members[path[0]].ObjectNode? {
        PutElsewhere(members[path[0]].members, path[1..], value, q[1..]);
      }
    }
  }

  /** It makes no such path writable that was not, and blocks none. */
  lemma {:induction false} PutKeepsWritable(members: Members, path: Path, value: Node, q: Path)
    requires path != [] && Unrelated(path, q)
    ensures Writable(Put(members, path, value), q) <==> Writable(members, q)
    decreases |path|
  {
    if |q| > 1 && q[0] == path[0] {
      UnrelatedTails(path, q);
      assert |path| > 1;
      if path[0] !in members {
        PutKeepsWritable(map[], path[1..], value, q[1..]);
      } else if members[path[0]].ObjectNode? {
        PutKeepsWritable(members[path[0]].members, path[1..], value, q[1..]);
      }
    }
  }

  lemma {:induction false} PlainNodeBlocks(members: Members, p: Path, q: Path, v: Node)
    requires p != [] && p < q && !v.ObjectNode? && Lookup(ObjectNode(members), p) == Some(v)
    ensures !Writable(members, q) && Lookup(ObjectNode(members), q) == None
    decreases |p|
  {
    assert q[0] == p[0];
    if |p| == 1 {
      assert p[1..] == [];
    } else {
      PlainNodeBlocks(members[p[0]].members, p[1..], q[1..], v);
    }
  }

  lemma {:induction false} BlockedBelow(members: Members, p: Path, q: Path)
    requires p <= q && !Writable(members, p)
    ensures !Writable(members, q)
    decreases |p|
  {
    assert q[0] == p[0];
    if members[p[0]].ObjectNode? {
      BlockedBelow(members[p[0]].members, p[1..], q[1..]);
    }
  }

  /** Two values written one after the other can both be read exactly when both paths were writable
      and neither is a segment-prefix of the other. */
  lemma BothSurvive(members: Members, p: Path, v: Node, q: Path, w: Node)
    requires p != [] && q != [] && p != q && !v.ObjectNode? && !w.ObjectNode?
    ensures var after := ObjectNode(Put(Put(members, p, v), q, w));
      Lookup(after, p) == Some(v) && Lookup(after, q) == Some(w)
      <==>
      Unrelated(p, q) && Writable(members, p) && Writable(members, q)
  {
    hide Put, Lookup, Writable;
    var one := Put(members, p, v);
    var two := Put(one, q, w);
    PutFound(members, p, v);
    PutFound(one, q, w);
    if Unrelated(p, q) {
      PutKeepsWritable(members, p, v, q);
      PutElsewhere(one, q, w, p);
    } else if p < q {
      if Writable(members, p) {
        PlainNodeBlocks(one, p, q, v);
      } else {
        BlockedBelow(members, p, q);
      }
    } else if Writable(one, q) {
      PlainNodeBlocks(two, q, p, w);
    }
  }

  /** `json_get_by_path`. */
  method GetByPath(root: Node, path: Path) returns (found: Option<Node>)
    ensures found == Lookup(root, path)
  {
    var node := root;
    for i := 0 to |path|
      invariant Lookup(root, path) == Lookup(node, path[i..])
    {
      assert path[i..][1..] == path[i + 1..];
      if !node.ObjectNode? || path[i] !in node.members {
        return None;
      }
      node := node.members[path[i]];
    }
    found := Some(node);
  }

  // ---------- values as nodes ----------

  /** `cfg_read_node_from_item` with the default handlers. */
  function ToNode(v: Value): Node {
    match v
    case BoolValue(b) => BoolNode(b)
    case IntValue(i) => IntNode(i)
    case RealValue(r) => DoubleNode(r)
    case StringValue(s) => if s.Some? then StringNode(s.value) else NullNode
  }

  function Bits(kind: Kind): nat {
    match kind
    case Int8Kind => 8
    case Int16Kind => 16
    case Int32Kind => 32
    case _ => 64
  }

  function Pow2(n: nat): int {
    if n == 0 then 1 else 2 * Pow2(n - 1)
  }

  predicate InRange(kind: Kind, i: int) {
    -Pow2(Bits(kind) - 1) <= i < Pow2(Bits(kind) - 1)
  }

  /** The default `from_json` handlers; floating-point limits are not modelled. */
  function DefaultParse(kind: Kind, node: Node, current: Value): (int, Value) {
    match node
    case BoolNode(b) => if kind.BoolKind? then (0, BoolValue(b)) else (-1, current)
    case IntNode(i) =>
      if (kind.Int8Kind? || kind.Int16Kind? || kind.Int32Kind? || kind.Int64Kind?) && InRange(kind, i) then
        (0, IntValue(i))
      else (-1, current)
    case DoubleNode(r) => if kind.FloatKind? || kind.DoubleKind? then (0, RealValue(r)) else (-1, current)
    case StringNode(s) => if kind.StringKind? then (0, StringValue(Some(s))) else (-1, current)
    case NullNode => (if kind.StringKind? then 0 else -1, current)
    case ArrayNode(_) => (-1, current)
    case ObjectNode(_) => (-1, current)
  }

  /** The storage of an item holds a value of its type. */
  predicate Fits(kind: Kind, v: Value) {
    match v
    case BoolValue(_) => kind.BoolKind?
    case IntValue(i) => (kind.Int8Kind? || kind.Int16Kind? || kind.Int32Kind? || kind.Int64Kind?) && InRange(kind, i)
    case RealValue(_) => kind.FloatKind? || kind.DoubleKind?
    case StringValue(_) => kind.StringKind?
  }

  /** The item's `from_json` undoes `to_json` on this value. */
  ghost predicate Recovers(item: Item, v: Value) {
    && item.show(v).Some? && TypeMatches(item.kind, item.show(v).value)
    && forall w :: item.parse(item.show(v).value, w) == (0, v)
  }

  /** The default handlers recover exactly the values that are not absent strings. */
  lemma DefaultRecovers(item: Item, v: Value)
    requires Fits(item.kind, v) && item.show(v) == Some(ToNode(v))
    requires forall n, w :: item.parse(n, w) == DefaultParse(item.kind, n, w)
    ensures Recovers(item, v) <==> v != StringValue(None)
  {
  }
}
