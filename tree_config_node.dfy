/**
 * The TreeConfigNode class of utility/tree_config.hpp: a named node with a
 * sorted map of values and a list of children. The node's own name and
 * values are fields the methods update in place. The children are held as
 * values of type TreeConfig.Node, and a child is designated by its
 * position in the list where the source hands out a pointer to it.
 */
module TreeConfigNodes {
  import opened Wrappers
  import opened OrderedMap
  import opened Converters
  import opened TreeConfig
  import opened TreeConfigText

  /** r is what findNode answers: the first child named name, or none when no child has that name. */
  predicate FirstNamed(children: seq<Node>, name: string, r: Option<nat>) {
    match r
    case None => forall k | 0 <= k < |children| :: children[k].name != name
    case Some(i) => i < |children| && children[i].name == name && forall k | 0 <= k < i :: children[k].name != name
  }

  /** findNode has exactly one answer for every list of children and name. */
  lemma FirstNamedUnique(children: seq<Node>, name: string, r: Option<nat>, r': Option<nat>)
    requires FirstNamed(children, name, r) && FirstNamed(children, name, r')
    ensures r == r'
  {
  }

  class TreeConfigNode {
    var name: string
    var values: Entries
    var children: seq<Node>

    /** The node as a value, as the parser and the serialiser see it. */
    function Value(): Node
      reads this
    {
      Node(name, values, children)
    }

    /** std::map keeps its keys sorted. */
    predicate Valid()
      reads this
    {
      Sorted(values)
    }

    /** A node with a name, no values and no children. */
    constructor (name: string)
      ensures Valid() && Value() == Node(name, [], [])
    {
      this.name := name;
      values := [];
      children := [];
    }

    /** hasValue: whether some value is stored under key. */
    function HasValue(key: string): (r: bool)
      reads this
      ensures r <==> key in Keys(values)
    {
      Find(values, key).Some?
    }

    /**
     * loadValue: a stored value that the converter can read is loaded into
     * the variable and the answer is true; a missing key or text the
     * converter rejects leaves the variable as it was and answers false.
     */
    method LoadValue<T>(key: string, c: Converter<T>, var_: T) returns (ok: bool, result: T)
      ensures ok <==> Find(values, key).Some? && c.load(Find(values, key).value).Some?
      ensures ok ==> result == c.load(Find(values, key).value).value
      ensures !ok ==> result == var_
    {
      var found := Find(values, key);
      if found.Some? {
        var loaded := c.load(found.value);
        if loaded.Some? {
          return true, loaded.value;
        }
      }
      return false, var_;
    }

    /**
     * storeValue: map::insert. The answer is true when key was absent and
     * now holds v; a key already present keeps its value and the answer is
     * false. Every other key keeps what it held.
     */
    method StoreValue(key: string, v: string) returns (inserted: bool)
      requires Valid()
      modifies this
      ensures Valid() && name == old(name) && children == old(children)
      ensures values == Insert(old(values), key, v)
      ensures inserted <==> key !in Keys(old(values))
      ensures Find(values, key) == if inserted then Some(v) else Find(old(values), key)
      ensures forall k | k != key :: Find(values, k) == Find(old(values), k)
    {
      inserted := Find(values, key).None?;
      InsertSorted(values, key, v);
      forall k {
        FindAfterInsert(values, key, v, k);
      }
      values := Insert(values, key, v);
    }

    /** storeValue of a typed value: the text the converter makes of it. */
    method StoreConverted<T>(key: string, c: Converter<T>, x: T) returns (inserted: bool)
      requires Valid()
      modifies this
      ensures Valid() && name == old(name) && children == old(children)
      ensures values == Insert(old(values), key, c.store(x))
      ensures inserted <==> key !in Keys(old(values))
    {
      inserted := StoreValue(key, c.store(x));
    }

    /**
     * loadOrStore: loads the value stored under key when there is one the
     * converter can read; otherwise stores the variable's text, which
     * changes nothing when the key is present already, and answers false.
     * Afterwards the key is always present, and a converter that reads
     * back what it stores reads back the variable from a key that was
     * absent.
     */
    method LoadOrStore<T(!new)>(key: string, c: Converter<T>, value: T) returns (loaded: bool, result: T)
      requires Valid()
      modifies this
      ensures Valid() && name == old(name) && children == old(children)
      ensures loaded <==> Find(old(values), key).Some? && c.load(Find(old(values), key).value).Some?
      ensures loaded ==> values == old(values) && result == c.load(Find(old(values), key).value).value
      ensures !loaded ==> result == value && values == Insert(old(values), key, c.store(value))
      ensures key in Keys(old(values)) ==> values == old(values)
      ensures key !in Keys(old(values)) ==> Find(values, key) == Some(c.store(value))
      ensures RoundTrips(c) && key !in Keys(old(values)) ==> c.load(Find(values, key).value) == Some(value)
    {
      loaded, result := LoadValue(key, c, value);
      if !loaded {
        FindAfterInsert(values, key, c.store(value), key);
        var _ := StoreConverted(key, c, value);
      }
    }

    /** findNode: the position of the first child named nodeName, or none. */
    method FindNode(nodeName: string) returns (r: Option<nat>)
      ensures FirstNamed(children, nodeName, r)
    {
      var k := 0;
      while k < |children|
        invariant k <= |children|
        invariant forall j | 0 <= j < k :: children[j].name != nodeName
      {
        if children[k].name == nodeName {
          return Some(k);
        }
        k := k + 1;
      }
      return None;
    }

    /** appendNode of a node made elsewhere: it becomes the last child. */
    method AppendChild(child: Node) returns (i: nat)
      modifies this
      ensures name == old(name) && values == old(values)
      ensures children == old(children) + [child] && i == |old(children)|
    {
      children := children + [child];
      i := |children| - 1;
    }

    /** appendNode by name: a new empty child named nodeName becomes the last child. */
    method AppendNode(nodeName: string) returns (i: nat)
      modifies this
      ensures name == old(name) && values == old(values)
      ensures children == old(children) + [Node(nodeName, [], [])] && i == |old(children)|
      ensures i < |children| && children[i].name == nodeName
    {
      i := AppendChild(Node(nodeName, [], []));
    }

    /**
     * findOrAppendNode: the first child named nodeName; when there is none,
     * a new empty child with that name appended at the end.
     */
    method FindOrAppendNode(nodeName: string) returns (i: nat)
      modifies this
      ensures name == old(name) && values == old(values)
      ensures i < |children| && FirstNamed(children, nodeName, Some(i))
      ensures FirstNamed(old(children), nodeName, None) ==> children == old(children) + [Node(nodeName, [], [])]
      ensures !FirstNamed(old(children), nodeName, None) ==> children == old(children)
    {
      var r := FindNode(nodeName);
      if r.None? {
        i := AppendNode(nodeName);
      } else {
        i := r.value;
      }
    }

    /**
     * parseTreeConfig into this node: the node becomes what the parse left
     * behind, also when the parse fails part way.
     */
    method Parse(s: Option<string>) returns (ok: bool)
      modifies this
      ensures ok == ParseTreeConfig(s, old(Value())).ok
      ensures Value() == ParseTreeConfig(s, old(Value())).node
    {
      var r := ParseTreeConfigFrom(s, Value());
      name, values, children := r.node.name, r.node.values, r.node.children;
      ok := r.ok;
    }

    /** serializeTreeConfig of this node as a root, which has no parent. */
    method Serialize() returns (str: string)
      ensures str == SerializeTreeConfig(Value(), false)
    {
      str := SerializeTreeConfigFrom(Value(), false);
    }
  }

  /**
   * A readable root node survives serialisation and parsing into a fresh
   * node of any name: the values and children come back, under the fresh
   * node's name.
   */
  method SerializeThenParse(t: TreeConfigNode, freshName: string) returns (back: TreeConfigNode, ok: bool)
    requires Readable(t.Value())
    ensures fresh(back) && ok
    ensures back.name == freshName && back.values == t.values && back.children == t.children
  {
    var str := t.Serialize();
    back := new TreeConfigNode(freshName);
    SerializeRoundTrip(t.Value(), freshName);
    ok := back.Parse(Some(str));
  }
}
