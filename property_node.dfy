/**
 * The PropertyNode class of utility/property_node.hpp: a node with a fixed
 * name, a sorted map of values and a list of children. The values and the
 * children are fields the methods update in place. The children are held
 * as values of type PropertyTree.Node, and a child is designated by its
 * position in the list where the source hands out a pointer to it.
 */
module PropertyNodes {
  import opened Wrappers
  import opened OrderedMap
  import opened Converters
  import opened PropertyTree
  import opened PropertyTreeText

  /** r is what findNode answers: the first child named name, or none when no child has that name. */
  predicate FirstNamed(children: seq<Node>, name: string, r: Option<nat>) {
    match r
    case None => forall k | 0 <= k < |children| :: children[k].name != name
    case Some(i) => i < |children| && children[i].name == name && forall k | 0 <= k < i :: children[k].name != name
  }

  /** findNode has exactly one answer for every list of children and name. */
  lemma FirstNamedUnique(children: seq<Node>, name: string, r: Option<nat>, r': Option<nat>)
    requires FirstNamed(children, name, r) && FirstNamed(children, name, r')
    ensures r == r'
  {
  }

  class PropertyNode {
    const name: string
    var values: Entries
    var children: seq<Node>

    /** The node as a value, as the parser and save see it. */
    function Value(): Node
      reads this
    {
      Node(name, values, children)
    }

    /** std::map keeps its keys sorted. */
    predicate Valid()
      reads this
    {
      Sorted(values)
    }

    /** A node with a name, no values and no children. */
    constructor (name: string)
      ensures Valid() && Value() == Node(name, [], [])
    {
      this.name := name;
      values := [];
      children := [];
    }

    /** hasValue: whether some value is stored under key. */
    function HasValue(key: string): (r: bool)
      reads this
      ensures r <==> key in Keys(values)
    {
      Find(values, key).Some?
    }

    /**
     * loadValue: a stored value that the converter can read is loaded into
     * the variable and the answer is true; a missing key or text the
     * converter rejects leaves the variable as it was and answers false.
     */
    method LoadValue<T>(key: string, c: Converter<T>, var_: T) returns (ok: bool, result: T)
      ensures ok <==> Find(values, key).Some? && c.load(Find(values, key).value).Some?
      ensures ok ==> result == c.load(Find(values, key).value).value
      ensures !ok ==> result == var_
    {
      var found := Find(values, key);
      if found.Some? {
        var loaded := c.load(found.value);
        if loaded.Some? {
          return true, loaded.value;
        }
      }
      return false, var_;
    }

    /**
     * storeValue: map::operator[] and a swap, so key holds v afterwards
     * whatever it held before. The answer is true when the key was absent
     * or held the empty text, which the source does not count as
     * overwritten. Every other key keeps what it held.
     */
    method StoreValue(key: string, v: string) returns (vacant: bool)
      requires Valid()
      modifies this
      ensures Valid() && children == old(children)
      ensures values == Assign(old(values), key, v)
      ensures vacant <==> Find(old(values), key) == None || Find(old(values), key) == Some("")
      ensures Find(values, key) == Some(v)
      ensures forall k | k != key :: Find(values, k) == Find(old(values), k)
    {
      var previous := Find(values, key);
      AssignSorted(values, key, v);
      forall k {
        FindAfterAssign(values, key, v, k);
      }
      values := Assign(values, key, v);
      var str := if previous.Some? then previous.value else "";
      vacant := str == "";
    }

    /** storeValue of a typed value: the text the converter makes of it. */
    method StoreConverted<T>(key: string, c: Converter<T>, x: T) returns (vacant: bool)
      requires Valid()
      modifies this
      ensures Valid() && children == old(children)
      ensures values == Assign(old(values), key, c.store(x))
      ensures vacant <==> Find(old(values), key) == None || Find(old(values), key) == Some("")
    {
      vacant := StoreValue(key, c.store(x));
    }

    /**
     * loadOrStore: loads the value stored under key when there is one the
     * converter can read; otherwise stores the variable's text, over a
     * value that could not be read as well, and answers false. Afterwards
     * the key holds either the loaded text or the variable's text, and a
     * converter that reads back what it stores reads back the variable.
     */
    method LoadOrStore<T(!new)>(key: string, c: Converter<T>, value: T) returns (loaded: bool, result: T)
      requires Valid()
      modifies this
      ensures Valid() && children == old(children)
      ensures loaded <==> Find(old(values), key).Some? && c.load(Find(old(values), key).value).Some?
      ensures loaded ==> values == old(values) && result == c.load(Find(old(values), key).value).value
      ensures !loaded ==> result == value && values == Assign(old(values), key, c.store(value))
      ensures !loaded ==> Find(values, key) == Some(c.store(value))
      ensures RoundTrips(c) && !loaded ==> c.load(Find(values, key).value) == Some(value)
    {
      loaded, result := LoadValue(key, c, value);
      if !loaded {
        FindAfterAssign(values, key, c.store(value), key);
        var _ := StoreConverted(key, c, value);
      }
    }

    /** findNode: the position of the first child named nodeName, or none. */
    method FindNode(nodeName: string) returns (r: Option<nat>)
      ensures FirstNamed(children, nodeName, r)
    {
      var k := 0;
      while k < |children|
        invariant k <= |children|
        invariant forall j | 0 <= j < k :: children[j].name != nodeName
      {
        if children[k].name == nodeName {
          return Some(k);
        }
        k := k + 1;
      }
      return None;
    }

    /** appendNode of a node made elsewhere: it becomes the last child. */
    method AppendChild(child: Node) returns (i: nat)
      modifies this
      ensures values == old(values)
      ensures children == old(children) + [child] && i == |old(children)|
    {
      children := children + [child];
      i := |children| - 1;
    }

    /** appendNode by name: a new empty child named nodeName becomes the last child. */
    method AppendNode(nodeName: string) returns (i: nat)
      modifies this
      ensures values == old(values)
      ensures children == old(children) + [Node(nodeName, [], [])] && i == |old(children)|
      ensures i < |children| && children[i].name == nodeName
    {
      i := AppendChild(Node(nodeName, [], []));
    }

    /**
     * findOrAppendNode: the first child named nodeName; when there is none,
     * a new empty child with that name appended at the end.
     */
    method FindOrAppendNode(nodeName: string) returns (i: nat)
      modifies this
      ensures values == old(values)
      ensures i < |children| && FirstNamed(children, nodeName, Some(i))
      ensures FirstNamed(old(children), nodeName, None) ==> children == old(children) + [Node(nodeName, [], [])]
      ensures !FirstNamed(old(children), nodeName, None) ==> children == old(children)
    {
      var r := FindNode(nodeName);
      if r.None? {
        i := AppendNode(nodeName);
      } else {
        i := r.value;
      }
    }

    /**
     * parse into this node: the values and children become what the parse
     * left behind, also when the parse fails part way. The name stays and
     * the values stay sorted.
     */
    method Parse(s: Option<string>) returns (ok: bool)
      requires Valid()
      modifies this
      ensures Valid()
      ensures ok == PropertyTree.Parse(s, old(Value())).ok
      ensures Value() == PropertyTree.Parse(s, old(Value())).node
    {
      var r := ParseFrom(s, Value());
      if s.Some? {
        ParseGrows(s.value, 0, Value());
      }
      values, children := r.node.values, r.node.children;
      ok := r.ok;
    }

    /** save of this node as a root, which has no parent, into a string. */
    method Save() returns (str: string)
      ensures str == PropertyTree.Save(Value(), 0, false)
    {
      str := SaveFrom(Value());
    }
  }

  /**
   * A readable node saved as a root and parsed into a fresh node of any
   * name: the parse succeeds and the values and children come back.
   */
  method SaveThenParse(t: PropertyNode, freshName: string) returns (back: PropertyNode, ok: bool)
    requires Readable(t.Value())
    ensures fresh(back) && ok
    ensures back.name == freshName && back.values == t.values && back.children == t.children
  {
    var str := t.Save();
    back := new PropertyNode(freshName);
    SaveRoundTrip(t.Value(), freshName);
    ok := back.Parse(Some(str));
  }
}
