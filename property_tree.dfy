/**
 * The text format of PropertyNode (utility/property_node.hpp), as
 * functions: PropertyNode::parseDirect reads `name = value;` lines and
 * `name { ... }` blocks into a node; PropertyNode::save writes a node back
 * out. Unlike the TreeConfig format there is no escaping: a value runs to
 * the first ';'. The loops themselves are the methods of module
 * PropertyTreeText, proved to compute these functions.
 */
module PropertyTree {
  import opened Wrappers
  import opened TextUtility
  import opened OrderedMap

  /** A PropertyNode as a value: its name, its values and its children. */
  datatype Node = Node(name: string, values: Entries, children: seq<Node>)

  /** What parseDirect returns, the node as it left it, and where it left the pointer. */
  datatype Parsed = Parsed(ok: bool, node: Node, pos: nat)

  // ---------------------------------------------------------------------------
  // Characters and scans

  /** std::isalnum in the "C" locale. */
  predicate IsAlnum(c: char) {
    '0' <= c <= '9' || 'A' <= c <= 'Z' || 'a' <= c <= 'z'
  }

  /** The characters skipIdents passes: letters, digits, '.', '_' and '-'. */
  predicate IsIdent(c: char) {
    IsAlnum(c) || c == '.' || c == '_' || c == '-'
  }

  /** skipIdents: the first position from i on that does not hold a name character. */
  function IdentsEnd(s: string, i: nat): (j: nat)
    requires i <= |s|
    ensures i <= j <= |s|
    decreases |s| - i
  {
    if i < |s| && IsIdent(s[i]) then IdentsEnd(s, i + 1) else i
  }

  /** skipUntil: the first position from i on that holds until or ends the text. */
  function UntilEnd(s: string, i: nat, until: char): (j: nat)
    requires i <= |s|
    ensures i <= j <= |s|
    decreases |s| - i
  {
    if At(s, i) == '\0' || s[i] == until then i else UntilEnd(s, i + 1, until)
  }

  /** The name that starts at b, and the position after the whitespace that follows it. */
  function ParseName(s: string, b: nat): (r: Scanned)
    requires b <= |s|
    ensures b <= r.pos <= |s|
  {
    var e := IdentsEnd(s, b);
    Scanned(s[b..e], SpacesEnd(s, e))
  }

  /** The value after '=': from after the whitespace up to the first ';' or the end; the position is that of the ';'. */
  function ParseValue(s: string, j: nat): (r: Scanned)
    requires j <= |s|
    ensures j <= r.pos <= |s|
  {
    var b := SpacesEnd(s, j);
    var e := UntilEnd(s, b, ';');
    Scanned(s[b..e], e)
  }

  // ---------------------------------------------------------------------------
  // The parser

  /**
   * The while loop of parseDirect from position i into node: after
   * whitespace, the end of the text or a '}' ends the loop successfully and
   * the pointer stays there; anything else is one entry.
   */
  function ParseDirect(s: string, i: nat, node: Node): (r: Parsed)
    requires i <= |s|
    ensures i <= r.pos <= |s|
    decreases |s| - i, 1
  {
    var b := SpacesEnd(s, i);
    if At(s, b) == '\0' || At(s, b) == '}' then Parsed(true, node, b)
    else EntryAt(s, b, node)
  }

  /**
   * One entry, starting at b: a name, then `= value;`, which overwrites the
   * value of that name, or a child block, which a '}' must end. The child
   * is appended once its '}' is seen, whatever its own parse answered.
   * Anything else fails.
   */
  function EntryAt(s: string, b: nat, node: Node): (r: Parsed)
    requires b <= |s|
    ensures b <= r.pos <= |s|
    decreases |s| - b, 0
  {
    var name := ParseName(s, b);
    var j := name.pos;
    if At(s, j) == '=' then
      var value := ParseValue(s, j + 1);
      if At(s, value.pos) == ';' then ParseDirect(s, value.pos + 1, node.(values := Assign(node.values, name.text, value.text)))
      else Parsed(false, node, value.pos)
    else if At(s, j) == '{' then
      var child := ParseDirect(s, j + 1, Node(name.text, [], []));
      if At(s, child.pos) == '}' then ParseDirect(s, child.pos + 1, node.(children := node.children + [child.node]))
      else Parsed(false, node, child.pos)
    else Parsed(false, node, j)
  }

  /** parse(const char*): a null pointer is parsed successfully as nothing. */
  function Parse(s: Option<string>, node: Node): (r: Parsed)
    ensures s.None? ==> r.ok && r.node == node
  {
    if s.None? then Parsed(true, node, 0) else ParseDirect(s.value, 0, node)
  }

  // ---------------------------------------------------------------------------
  // The saver

  /** One value: the indentation, then `key = value;` and a new line; nothing is escaped. */
  function ValueText(e: Entry, indentation: nat): string {
    Tabs(indentation) + e.key + " = " + e.value + ";\n"
  }

  function ValuesText(vs: Entries, indentation: nat): string {
    if vs == [] then [] else ValueText(vs[0], indentation) + ValuesText(vs[1..], indentation)
  }

  /**
   * save at the given indentation: a node with a parent is framed by
   * `name {` and `}` followed by an indented blank line, and its contents
   * go one level deeper; the root writes its contents only.
   */
  function Save(t: Node, indentation: nat, hasParent: bool): string
    decreases t, 2
  {
    if hasParent then
      Tabs(indentation) + t.name + " {\n" + Contents(t, indentation + 1)
      + (Tabs(indentation) + "}") + ("\n" + Tabs(indentation) + "\n")
    else Contents(t, indentation)
  }

  /** The values, an indented blank line when there are children, then the children. */
  function Contents(t: Node, indentation: nat): string
    decreases t, 1
  {
    ValuesText(t.values, indentation) + (if |t.children| > 0 then Tabs(indentation) + "\n" else "")
    + ChildrenText(t, indentation, 0)
  }

  /** The children of t from index k on, each saved with a parent. */
  function ChildrenText(t: Node, indentation: nat, k: nat): string
    decreases t, 0, |t.children| - k
  {
    if k >= |t.children| then []
    else Save(t.children[k], indentation, true) + ChildrenText(t, indentation, k + 1)
  }

  // ---------------------------------------------------------------------------
  // The round trip

  /** A name skipIdents reads whole. */
  predicate IsName(n: string) {
    forall k | 0 <= k < |n| :: IsIdent(n[k])
  }

  /** A value the parser reads back: no ';', no '\0' and no leading whitespace. */
  predicate ReadableValue(v: string) {
    (forall k | 0 <= k < |v| :: v[k] != ';' && v[k] != '\0') && (|v| > 0 ==> !IsSpace(v[0]))
  }

  /** A tree save writes so that parse reads it back. */
  predicate Readable(t: Node) {
    Sorted(t.values)
    && (forall e | e in t.values :: IsName(e.key) && ReadableValue(e.value))
    && (forall c | c in t.children :: IsName(c.name) && Readable(c))
  }

  /** A name before a character that is not a name character: skipIdents stops right after the name. */
  lemma {:induction false} IdentsEndAfter(s: string, i: nat, x: string)
    requires Has(s, i, x) && IsName(x) && !IsIdent(At(s, i + |x|))
    ensures IdentsEnd(s, i) == i + |x|
    decreases |x|
  {
    if x != [] {
      HasAt(s, i, x, 0);
      HasConcat(s, i, x[..1], x[1..]);
      assert x == x[..1] + x[1..];
      IdentsEndAfter(s, i + 1, x[1..]);
    }
  }

  /** A value without ';' or '\0' before a ';': skipUntil stops on that ';'. */
  lemma {:induction false} UntilEndAfter(s: string, i: nat, v: string)
    requires Has(s, i, v + ";") && forall k | 0 <= k < |v| :: v[k] != ';' && v[k] != '\0'
    ensures UntilEnd(s, i, ';') == i + |v|
    decreases |v|
  {
    HasConcat(s, i, v, ";");
    HasAt(s, i + |v|, ";", 0);
    if v != [] {
      HasAt(s, i, v, 0);
      HasConcat(s, i, v[..1], v[1..] + ";");
      assert v + ";" == v[..1] + (v[1..] + ";");
      UntilEndAfter(s, i + 1, v[1..]);
    }
  }

  /** Whitespace, one space and then '=' or '{': an entry with the empty name starts on that character. */
  lemma EmptyNameAt(s: string, i: nat, w: string, c: char, b: nat)
    requires Has(s, i, w + " " + [c]) && IsBlank(w) && (c == '=' || c == '{') && b == i + |w| + 1
    ensures SpacesEnd(s, i) == b && b < |s| && s[b] == c && ParseName(s, b) == Scanned("", b)
  {
    HasConcat(s, i, w + " ", [c]);
    HasAt(s, b, [c], 0);
    assert IsBlank(w + " ");
    SpacesEndAfter(s, i, w + " ");
    IdentsEndAfter(s, b, []);
    SpacesEndAfter(s, b, []);
  }

  /** Whitespace, a non-empty name, one space and then '=' or '{': an entry starts on the name and reads it. */
  lemma NamedAt(s: string, i: nat, w: string, n: string, c: char, b: nat, e: nat)
    requires Has(s, i, w + n + " " + [c]) && IsBlank(w) && IsName(n) && n != [] && (c == '=' || c == '{')
    requires b == i + |w| && e == b + |n|
    ensures SpacesEnd(s, i) == b && b < |s| && IsIdent(s[b]) && ParseName(s, b) == Scanned(n, e + 1)
  {
    HasConcat(s, i, w + n + " ", [c]);
    HasConcat(s, i, w + n, " ");
    HasConcat(s, i, w, n);
    HasAt(s, e + 1, [c], 0);
    HasAt(s, e, " ", 0);
    HasAt(s, b, n, 0);
    SpacesEndAfter(s, i, w);
    IdentsEndAfter(s, b, n);
    SpacesEndAfter(s, e, " ");
  }

  /**
   * Whitespace, a name, one space and then '=' or '{': the loop goes on to
   * an entry, which reads exactly the name and stops on that character.
   */
  lemma NameOf(s: string, i: nat, w: string, n: string, c: char)
    requires Has(s, i, w + n + " " + [c]) && (c == '=' || c == '{')
    requires IsBlank(w) && IsName(n)
    ensures var b := SpacesEnd(s, i);
      && b < |s| && s[b] != '\0' && s[b] != '}'
      && ParseName(s, b) == Scanned(n, i + |w| + |n| + 1)
  {
    if n == [] {
      assert w + n == w;
      EmptyNameAt(s, i, w, c, i + |w| + 1);
    } else {
      NamedAt(s, i, w, n, c, i + |w|, i + |w| + |n|);
    }
  }

  /** A position after whitespace that is neither the end nor '}': the loop goes on to an entry there. */
  lemma Enter(s: string, i: nat, node: Node)
    requires i <= |s| && At(s, SpacesEnd(s, i)) != '\0' && At(s, SpacesEnd(s, i)) != '}'
    ensures ParseDirect(s, i, node) == EntryAt(s, SpacesEnd(s, i), node)
  {
  }

  /** One space, a readable value and ';': the value is read whole and the pointer stops on the ';'. */
  lemma ParseValueOf(s: string, p: nat, v: string, end: nat)
    requires Has(s, p, " " + v + ";") && ReadableValue(v) && end == p + 1 + |v|
    ensures ParseValue(s, p) == Scanned(v, end) && At(s, end) == ';'
  {
    assert " " + v + ";" == " " + (v + ";");
    HasConcat(s, p, " ", v + ";");
    HasAt(s, p + 1, v + ";", 0);
    SpacesEndAfter(s, p, " ");
    UntilEndAfter(s, p + 1, v);
    HasConcat(s, p + 1, v, ";");
    HasAt(s, end, ";", 0);
  }

  /** An entry `name = value;`: the value goes in with map::operator[]. */
  lemma ValueStep(s: string, b: nat, name: Scanned, node: Node, value: Scanned, next: nat, node': Node)
    requires b <= |s| && ParseName(s, b) == name && name.pos < |s| && s[name.pos] == '='
    requires ParseValue(s, name.pos + 1) == value && At(s, value.pos) == ';'
    requires next == value.pos + 1 && node' == node.(values := Assign(node.values, name.text, value.text))
    ensures EntryAt(s, b, node) == ParseDirect(s, next, node')
  {
  }

  /** An entry `name { ... }` whose parse stops on '}': the child is appended, whether or not its parse succeeded. */
  lemma ChildStep(s: string, b: nat, name: Scanned, node: Node, child: Parsed, next: nat, node': Node)
    requires b <= |s| && ParseName(s, b) == name && name.pos < |s| && s[name.pos] == '{'
    requires ParseDirect(s, name.pos + 1, Node(name.text, [], [])) == child && At(s, child.pos) == '}'
    requires next == child.pos + 1 && node' == node.(children := node.children + [child.node])
    ensures EntryAt(s, b, node) == ParseDirect(s, next, node')
  {
  }

  /** Whitespace before the next entry leaves the loop where it was. */
  lemma SpaceSkipped(s: string, i: nat, node: Node)
    requires i < |s| && IsSpace(s[i])
    ensures ParseDirect(s, i, node) == ParseDirect(s, i + 1, node)
  {
    assert SpacesEnd(s, i) == SpacesEnd(s, i + 1);
  }

  lemma {:induction false} SkipWhitespace(s: string, i: nat, w: string, node: Node, next: nat)
    requires Has(s, i, w) && IsBlank(w) && next == i + |w|
    ensures ParseDirect(s, i, node) == ParseDirect(s, next, node)
    decreases |w|
  {
    if w != [] {
      HasAt(s, i, w, 0);
      SpaceSkipped(s, i, node);
      HasConcat(s, i, w[..1], w[1..]);
      assert w == w[..1] + w[1..];
      SkipWhitespace(s, i + 1, w[1..], node, next);
    }
  }

  /** Indentation and the blank line save writes are whitespace. */
  lemma IndentIsBlank(indentation: nat)
    ensures IsBlank(Tabs(indentation)) && IsBlank(Tabs(indentation) + "\n")
    ensures IsBlank("\n" + Tabs(indentation) + "\n")
  {
  }

  /** Where the name, the '=', the value and the ';' of one value's text are, and what parsing them reads. */
  lemma ValueParses(s: string, i: nat, e: Entry, indentation: nat, j: nat, k: nat)
    requires Has(s, i, ValueText(e, indentation)) && IsName(e.key) && ReadableValue(e.value)
    requires j == i + indentation + |e.key| + 1 && k == j + 2 + |e.value|
    ensures var b := SpacesEnd(s, i);
      && b < |s| && s[b] != '\0' && s[b] != '}' && ParseName(s, b) == Scanned(e.key, j)
    ensures j < |s| && s[j] == '='
    ensures ParseValue(s, j + 1) == Scanned(e.value, k) && At(s, k) == ';'
    ensures k + 1 < |s| && IsSpace(s[k + 1]) && k + 2 == i + |ValueText(e, indentation)|
  {
    var head := Tabs(indentation) + e.key + " " + "=";
    var tail := " " + e.value + ";";
    ValueTextSplit(e, indentation);
    HasConcat(s, i, head + tail, "\n");
    HasConcat(s, i, head, tail);
    ValueHead(s, i, e.key, indentation, j);
    ParseValueOf(s, j + 1, e.value, k);
    HasAt(s, k + 1, "\n", 0);
  }

  /** The text of a value: the indented key with " =", then " value;", then the new line. */
  lemma ValueTextSplit(e: Entry, indentation: nat)
    ensures ValueText(e, indentation) == (Tabs(indentation) + e.key + " " + "=") + (" " + e.value + ";") + "\n"
  {
  }

  /** The indented key of a saved value and its '=': the loop enters an entry named so, which stops on the '='. */
  lemma ValueHead(s: string, i: nat, key: string, indentation: nat, j: nat)
    requires Has(s, i, Tabs(indentation) + key + " " + "=") && IsName(key)
    requires j == i + indentation + |key| + 1
    ensures var b := SpacesEnd(s, i);
      && b < |s| && s[b] != '\0' && s[b] != '}' && ParseName(s, b) == Scanned(key, j)
    ensures j < |s| && s[j] == '='
  {
    IndentIsBlank(indentation);
    NameOf(s, i, Tabs(indentation), key, '=');
    HasConcat(s, i, Tabs(indentation) + key + " ", "=");
    HasAt(s, j, "=", 0);
  }

  /** One value's text: parsing it stores the value, which goes last since its key is above every present key. */
  lemma ValueRoundTrip(s: string, i: nat, e: Entry, indentation: nat, node: Node, next: nat, node': Node)
    requires Has(s, i, ValueText(e, indentation)) && IsName(e.key) && ReadableValue(e.value)
    requires forall x | x in Keys(node.values) :: Less(x, e.key)
    requires next == i + |ValueText(e, indentation)| && node' == node.(values := node.values + [e])
    ensures ParseDirect(s, i, node) == ParseDirect(s, next, node')
  {
    AppendGreatest(node, e, node');
    ValueTextParses(s, i, e, indentation, node, next, node');
  }

  /** A key above every present key: assigning it appends it. */
  lemma AppendGreatest(node: Node, e: Entry, node': Node)
    requires forall x | x in Keys(node.values) :: Less(x, e.key)
    requires node' == node.(values := node.values + [e])
    ensures node' == node.(values := Assign(node.values, e.key, e.value))
  {
    InsertGreatest(node.values, e.key, e.value);
  }

  /** One value's text: the loop of parseDirect assigns the value and goes on after the text. */
  lemma ValueTextParses(s: string, i: nat, e: Entry, indentation: nat, node: Node, next: nat, node': Node)
    requires Has(s, i, ValueText(e, indentation)) && IsName(e.key) && ReadableValue(e.value)
    requires next == i + |ValueText(e, indentation)| && node' == node.(values := Assign(node.values, e.key, e.value))
    ensures ParseDirect(s, i, node) == ParseDirect(s, next, node')
  {
    var j := i + indentation + |e.key| + 1;
    var k := j + 2 + |e.value|;
    ValueParses(s, i, e, indentation, j, k);
    ValueSteps(s, i, SpacesEnd(s, i), e.key, e.value, node, j, k, node');
  }

  /** The steps of the loop over `key = value;` and the new line after it, where j and k say. */
  lemma ValueSteps(s: string, i: nat, b: nat, key: string, value: string, node: Node, j: nat, k: nat, node': Node)
    requires i <= |s| && b == SpacesEnd(s, i) && b < |s| && s[b] != '\0' && s[b] != '}'
    requires ParseName(s, b) == Scanned(key, j) && j < |s| && s[j] == '='
    requires ParseValue(s, j + 1) == Scanned(value, k) && At(s, k) == ';' && k + 1 < |s| && IsSpace(s[k + 1])
    requires node' == node.(values := Assign(node.values, key, value))
    ensures ParseDirect(s, i, node) == ParseDirect(s, k + 2, node')
  {
    Enter(s, i, node);
    ValueStep(s, b, Scanned(key, j), node, Scanned(value, k), k + 1, node');
    SpaceSkipped(s, k + 1, node');
  }

  /** The first value of a run: its text comes first, and it is readable. */
  lemma ValuesHead(s: string, i: nat, vs: Entries, indentation: nat)
    requires Has(s, i, ValuesText(vs, indentation)) && vs != []
    requires forall e | e in vs :: IsName(e.key) && ReadableValue(e.value)
    ensures Has(s, i, ValueText(vs[0], indentation))
    ensures Has(s, i + |ValueText(vs[0], indentation)|, ValuesText(vs[1..], indentation))
    ensures |ValuesText(vs, indentation)| == |ValueText(vs[0], indentation)| + |ValuesText(vs[1..], indentation)|
    ensures IsName(vs[0].key) && ReadableValue(vs[0].value)
    ensures forall e | e in vs[1..] :: IsName(e.key) && ReadableValue(e.value)
  {
    assert vs[0] in vs;
    HasConcat(s, i, ValueText(vs[0], indentation), ValuesText(vs[1..], indentation));
  }

  /** The text of a sorted run of readable values: parsing it stores exactly those values. */
  lemma {:induction false} ValuesRoundTrip(s: string, i: nat, vs: Entries, indentation: nat, node: Node, next: nat, node': Node)
    requires Has(s, i, ValuesText(vs, indentation)) && Sorted(node.values + vs)
    requires forall e | e in vs :: IsName(e.key) && ReadableValue(e.value)
    requires next == i + |ValuesText(vs, indentation)| && node' == node.(values := node.values + vs)
    ensures ParseDirect(s, i, node) == ParseDirect(s, next, node')
    decreases |vs|
  {
    if vs == [] {
      assert node' == node;
    } else {
      var m := i + |ValueText(vs[0], indentation)|;
      var n1 := node.(values := node.values + [vs[0]]);
      ValuesHead(s, i, vs, indentation);
      SortedPrefixBelow(node.values, vs);
      ValueRoundTrip(s, i, vs[0], indentation, node, m, n1);
      ValuesRoundTrip(s, m, vs[1..], indentation, n1, next, node');
    }
  }

  /** Where the name, the '{', the contents, the '}' and the blank line of a saved child are. */
  lemma ChildParts(s: string, i: nat, c: Node, indentation: nat, j: nat, p: nat, next: nat)
    requires Has(s, i, Save(c, indentation, true))
    requires j == i + indentation + |c.name| + 1 && p == j + 2 + |Contents(c, indentation + 1)|
    requires next == i + |Save(c, indentation, true)|
    ensures Has(s, i, Tabs(indentation) + c.name + " " + "{")
    ensures j + 1 < |s| && s[j + 1] == '\n'
    ensures Has(s, j + 2, Contents(c, indentation + 1))
    ensures Has(s, p, Tabs(indentation) + "}")
    ensures Has(s, p + indentation + 1, "\n" + Tabs(indentation) + "\n")
    ensures next == p + indentation + 1 + |"\n" + Tabs(indentation) + "\n"|
  {
    var head := Tabs(indentation) + c.name + " " + "{";
    var body := Contents(c, indentation + 1);
    var close := Tabs(indentation) + "}";
    var tail := "\n" + Tabs(indentation) + "\n";
    var a := Tabs(indentation) + c.name + " {\n";
    assert |a| == indentation + |c.name| + 3 && |close| == indentation + 1;
    Split4(s, i, a, body, close, tail, j + 2, p, p + indentation + 1);
    assert a == head + "\n";
    HasLeft(s, i, head, "\n");
    HasRight(s, i, head, "\n", j + 1);
    HasAt(s, j + 1, "\n", 0);
  }

  /** Indentation and '}': the loop ends there, successfully, with the pointer on the '}'. */
  lemma CloseRoundTrip(s: string, i: nat, indentation: nat, node: Node)
    requires Has(s, i, Tabs(indentation) + "}")
    ensures ParseDirect(s, i, node) == Parsed(true, node, i + indentation)
    ensures i + indentation < |s| && s[i + indentation] == '}'
  {
    IndentIsBlank(indentation);
    HasConcat(s, i, Tabs(indentation), "}");
    HasAt(s, i + indentation, "}", 0);
    SpacesEndAfter(s, i, Tabs(indentation));
  }

  /** The block of a saved child after its '{': it parses into an empty node named like c as c, stopping on the '}'. */
  lemma {:induction false} ChildBodyRoundTrip(s: string, c: Node, indentation: nat, j: nat, p: nat)
    requires j + 1 < |s| && s[j + 1] == '\n' && Has(s, j + 2, Contents(c, indentation + 1)) && Readable(c)
    requires p == j + 2 + |Contents(c, indentation + 1)| && Has(s, p, Tabs(indentation) + "}")
    ensures ParseDirect(s, j + 1, Node(c.name, [], [])) == Parsed(true, c, p + indentation)
    ensures p + indentation < |s| && s[p + indentation] == '}'
    decreases c, 3
  {
    SpaceSkipped(s, j + 1, Node(c.name, [], []));
    assert c.(name := c.name) == c;
    ContentsRoundTrip(s, j + 2, c, indentation + 1, c.name, p);
    CloseRoundTrip(s, p, indentation, c);
  }

  /** The indented name of a saved child and its '{': the loop enters an entry named so, which stops on the '{'. */
  lemma ChildHead(s: string, i: nat, name: string, indentation: nat, j: nat)
    requires Has(s, i, Tabs(indentation) + name + " " + "{") && IsName(name)
    requires j == i + indentation + |name| + 1
    ensures var b := SpacesEnd(s, i);
      && b < |s| && s[b] != '\0' && s[b] != '}'
      && ParseName(s, b) == Scanned(name, j) && j < |s| && s[j] == '{'
  {
    IndentIsBlank(indentation);
    NameOf(s, i, Tabs(indentation), name, '{');
    HasConcat(s, i, Tabs(indentation) + name + " ", "{");
    HasAt(s, j, "{", 0);
  }

  /** A saved child read from its start: the entry its name opens, its block, its '}' and its blank line. */
  lemma ChildLayout(s: string, i: nat, c: Node, indentation: nat, j: nat, p: nat, next: nat)
    requires Has(s, i, Save(c, indentation, true)) && IsName(c.name)
    requires j == i + indentation + |c.name| + 1 && p == j + 2 + |Contents(c, indentation + 1)|
    requires next == i + |Save(c, indentation, true)|
    ensures var b := SpacesEnd(s, i);
      && b < |s| && s[b] != '\0' && s[b] != '}'
      && ParseName(s, b) == Scanned(c.name, j) && j < |s| && s[j] == '{'
    ensures j + 1 < |s| && s[j + 1] == '\n'
    ensures Has(s, j + 2, Contents(c, indentation + 1))
    ensures Has(s, p, Tabs(indentation) + "}")
    ensures Has(s, p + indentation + 1, "\n" + Tabs(indentation) + "\n")
    ensures next == p + indentation + 1 + |"\n" + Tabs(indentation) + "\n"|
  {
    ChildParts(s, i, c, indentation, j, p, next);
    ChildHead(s, i, c.name, indentation, j);
  }

  /** One saved child: parsing it appends the child, name and all. */
  lemma {:induction false} ChildRoundTrip(s: string, i: nat, c: Node, indentation: nat, node: Node, next: nat, node': Node)
    requires Has(s, i, Save(c, indentation, true)) && IsName(c.name) && Readable(c)
    requires next == i + |Save(c, indentation, true)| && node' == node.(children := node.children + [c])
    ensures ParseDirect(s, i, node) == ParseDirect(s, next, node')
    decreases c, 4
  {
    var j := i + indentation + |c.name| + 1;
    var p := j + 2 + |Contents(c, indentation + 1)|;
    ChildLayout(s, i, c, indentation, j, p, next);
    ChildBodyRoundTrip(s, c, indentation, j, p);
    ChildSteps(s, i, SpacesEnd(s, i), c, node, j, p + indentation, indentation, next, node');
  }

  /** The steps of the loop over a child whose name ends before j, whose block ends at e and whose blank line follows. */
  lemma ChildSteps(s: string, i: nat, b: nat, c: Node, node: Node, j: nat, e: nat, indentation: nat, next: nat, node': Node)
    requires i <= |s| && b == SpacesEnd(s, i) && b < |s| && s[b] != '\0' && s[b] != '}'
    requires ParseName(s, b) == Scanned(c.name, j) && j < |s| && s[j] == '{'
    requires ParseDirect(s, j + 1, Node(c.name, [], [])) == Parsed(true, c, e) && e < |s| && s[e] == '}'
    requires Has(s, e + 1, "\n" + Tabs(indentation) + "\n") && next == e + 1 + |"\n" + Tabs(indentation) + "\n"|
    requires node' == node.(children := node.children + [c])
    ensures ParseDirect(s, i, node) == ParseDirect(s, next, node')
  {
    Enter(s, i, node);
    ChildStep(s, b, Scanned(c.name, j), node, Parsed(true, c, e), e + 1, node');
    IndentIsBlank(indentation);
    SkipWhitespace(s, e + 1, "\n" + Tabs(indentation) + "\n", node', next);
  }

  /** The child at index k of a run: its text comes first, and it is readable. */
  lemma ChildrenHead(s: string, i: nat, t: Node, indentation: nat, k: nat, node: Node)
    requires k < |t.children| && Has(s, i, ChildrenText(t, indentation, k))
    requires forall c | c in t.children :: IsName(c.name) && Readable(c)
    ensures Has(s, i, Save(t.children[k], indentation, true))
    ensures Has(s, i + |Save(t.children[k], indentation, true)|, ChildrenText(t, indentation, k + 1))
    ensures |ChildrenText(t, indentation, k)|
         == |Save(t.children[k], indentation, true)| + |ChildrenText(t, indentation, k + 1)|
    ensures IsName(t.children[k].name) && Readable(t.children[k])
    ensures node.children + t.children[k..] == (node.children + [t.children[k]]) + t.children[k + 1..]
  {
    assert t.children[k] in t.children;
    assert t.children[k..] == [t.children[k]] + t.children[k + 1..];
    HasConcat(s, i, Save(t.children[k], indentation, true), ChildrenText(t, indentation, k + 1));
  }

  /** The saved children of t from index k on: parsing them appends exactly those children. */
  lemma {:induction false} ChildrenRoundTrip(s: string, i: nat, t: Node, indentation: nat, k: nat, node: Node, next: nat, node': Node)
    requires k <= |t.children| && Has(s, i, ChildrenText(t, indentation, k))
    requires forall c | c in t.children :: IsName(c.name) && Readable(c)
    requires next == i + |ChildrenText(t, indentation, k)| && node' == node.(children := node.children + t.children[k..])
    ensures ParseDirect(s, i, node) == ParseDirect(s, next, node')
    decreases t, 1, |t.children| - k
  {
    if k == |t.children| {
      assert node' == node;
    } else {
      var m := i + |Save(t.children[k], indentation, true)|;
      var n1 := node.(children := node.children + [t.children[k]]);
      ChildrenHead(s, i, t, indentation, k, node);
      ChildRoundTrip(s, i, t.children[k], indentation, node, m, n1);
      ChildrenRoundTrip(s, m, t, indentation, k + 1, n1, next, node');
    }
  }

  /** Where the values, the blank line and the children of the contents are. */
  lemma ContentsParts(s: string, i: nat, t: Node, indentation: nat, i1: nat, i2: nat, end: nat)
    requires Has(s, i, Contents(t, indentation))
    requires i1 == i + |ValuesText(t.values, indentation)|
    requires i2 == i1 + |if |t.children| > 0 then Tabs(indentation) + "\n" else ""|
    requires end == i + |Contents(t, indentation)|
    ensures Has(s, i, ValuesText(t.values, indentation))
    ensures Has(s, i1, if |t.children| > 0 then Tabs(indentation) + "\n" else "")
    ensures Has(s, i2, ChildrenText(t, indentation, 0)) && end == i2 + |ChildrenText(t, indentation, 0)|
  {
    Split3(s, i, ValuesText(t.values, indentation), if |t.children| > 0 then Tabs(indentation) + "\n" else "",
           ChildrenText(t, indentation, 0), i1, i2);
  }

  /** What Readable says about the values and the children of a node. */
  lemma ReadableParts(t: Node, n: string)
    requires Readable(t)
    ensures Sorted(Node(n, [], []).values + t.values)
    ensures forall e | e in t.values :: IsName(e.key) && ReadableValue(e.value)
    ensures forall c | c in t.children :: IsName(c.name) && Readable(c)
    ensures Node(n, t.values, []) == Node(n, [], []).(values := Node(n, [], []).values + t.values)
    ensures Node(n, t.values, t.children) == Node(n, t.values, []).(children := [] + t.children[0..])
  {
    assert [] + t.values == t.values;
  }

  /** The contents of a readable node t: parsing them into an empty node named n gives t under the name n. */
  lemma {:induction false} ContentsRoundTrip(s: string, i: nat, t: Node, indentation: nat, n: string, end: nat)
    requires Has(s, i, Contents(t, indentation)) && Readable(t)
    requires end == i + |Contents(t, indentation)|
    ensures ParseDirect(s, i, Node(n, [], [])) == ParseDirect(s, end, t.(name := n))
    decreases t, 2
  {
    var i1 := i + |ValuesText(t.values, indentation)|;
    var i2 := i1 + |if |t.children| > 0 then Tabs(indentation) + "\n" else ""|;
    ContentsParts(s, i, t, indentation, i1, i2, end);
    ReadableParts(t, n);
    var n1, n2 := Node(n, t.values, []), Node(n, t.values, t.children);
    ValuesRoundTrip(s, i, t.values, indentation, Node(n, [], []), i1, n1);
    IndentIsBlank(indentation);
    SkipWhitespace(s, i1, if |t.children| > 0 then Tabs(indentation) + "\n" else "", n1, i2);
    ChildrenRoundTrip(s, i2, t, indentation, 0, n1, end, n2);
    assert t.(name := n) == n2;
  }

  /**
   * save then parse: a readable tree saved as a root comes back whole
   * except for its name, which is the name of the node parsed into; the
   * parse ends at the end of the text.
   */
  lemma SaveRoundTrip(t: Node, n: string)
    requires Readable(t)
    ensures var s := Save(t, 0, false);
      Parse(Some(s), Node(n, [], [])) == Parsed(true, t.(name := n), |s|)
  {
    var s := Save(t, 0, false);
    assert Has(s, 0, Contents(t, 0));
    ContentsRoundTrip(s, 0, t, 0, n, |s|);
  }

  // ---------------------------------------------------------------------------
  // What the parser promises

  /**
   * parseDirect answers true only on the end of the text or on a '}', and
   * leaves the pointer on it without consuming it.
   */
  lemma {:induction false} ParseStopsAtEndOrBrace(s: string, i: nat, node: Node)
    requires i <= |s|
    ensures var r := ParseDirect(s, i, node); r.ok ==> At(s, r.pos) == '\0' || At(s, r.pos) == '}'
    decreases |s| - i, 2
  {
    var b := SpacesEnd(s, i);
    if !(At(s, b) == '\0' || At(s, b) == '}') {
      EntryStopsAtEndOrBrace(s, b, node);
    }
  }

  lemma {:induction false} EntryStopsAtEndOrBrace(s: string, b: nat, node: Node)
    requires b <= |s|
    ensures var r := EntryAt(s, b, node); r.ok ==> At(s, r.pos) == '\0' || At(s, r.pos) == '}'
    decreases |s| - b, 1
  {
    var name := ParseName(s, b);
    if At(s, name.pos) == '=' && At(s, ParseValue(s, name.pos + 1).pos) == ';' {
      var value := ParseValue(s, name.pos + 1);
      ValueStopsAtEndOrBrace(s, b, name, node, value, node.(values := Assign(node.values, name.text, value.text)));
    } else if At(s, name.pos) == '{' && At(s, ParseDirect(s, name.pos + 1, Node(name.text, [], [])).pos) == '}' {
      var child := ParseDirect(s, name.pos + 1, Node(name.text, [], []));
      ChildStopsAtEndOrBrace(s, b, name, node, child, node.(children := node.children + [child.node]));
    } else {
      EntryFails(s, b, node);
    }
  }

  /** An entry `name = value;`: the loop goes on after the ';', and stops where it stops from there. */
  lemma {:induction false} ValueStopsAtEndOrBrace(s: string, b: nat, name: Scanned, node: Node, value: Scanned, node': Node)
    requires b <= |s| && ParseName(s, b) == name && name.pos < |s| && s[name.pos] == '='
    requires ParseValue(s, name.pos + 1) == value && At(s, value.pos) == ';'
    requires node' == node.(values := Assign(node.values, name.text, value.text))
    ensures var r := EntryAt(s, b, node); r.ok ==> At(s, r.pos) == '\0' || At(s, r.pos) == '}'
    decreases |s| - b, 0
  {
    ValueStep(s, b, name, node, value, value.pos + 1, node');
    ParseStopsAtEndOrBrace(s, value.pos + 1, node');
  }

  /** An entry `name { ... }` closed by '}': the loop goes on after the '}', and stops where it stops from there. */
  lemma {:induction false} ChildStopsAtEndOrBrace(s: string, b: nat, name: Scanned, node: Node, child: Parsed, node': Node)
    requires b <= |s| && ParseName(s, b) == name && name.pos < |s| && s[name.pos] == '{'
    requires ParseDirect(s, name.pos + 1, Node(name.text, [], [])) == child && At(s, child.pos) == '}'
    requires node' == node.(children := node.children + [child.node])
    ensures var r := EntryAt(s, b, node); r.ok ==> At(s, r.pos) == '\0' || At(s, r.pos) == '}'
    decreases |s| - b, 0
  {
    ChildStep(s, b, name, node, child, child.pos + 1, node');
    ParseStopsAtEndOrBrace(s, child.pos + 1, node');
  }

  /** The end of the text or a '}' after whitespace: parseDirect answers true at once and changes nothing. */
  lemma ParseAtEndOrBrace(s: string, i: nat, node: Node)
    requires i <= |s| && (At(s, SpacesEnd(s, i)) == '\0' || At(s, SpacesEnd(s, i)) == '}')
    ensures ParseDirect(s, i, node) == Parsed(true, node, SpacesEnd(s, i))
  {
  }

  /**
   * A value without its ';', and a name followed by neither '=' nor '{',
   * make the entry, and so parseDirect, answer false.
   */
  lemma EntryFails(s: string, b: nat, node: Node)
    requires b <= |s|
    ensures var j := ParseName(s, b).pos;
      At(s, j) != '=' && At(s, j) != '{' ==> !EntryAt(s, b, node).ok
    ensures var j := ParseName(s, b).pos;
      At(s, j) == '=' && At(s, ParseValue(s, j + 1).pos) != ';' ==> !EntryAt(s, b, node).ok
  {
  }

  /** after only adds to before: the values stay sorted and keep their keys, the name stays and children are only appended. */
  predicate Grows(before: Node, after: Node) {
    && Sorted(after.values) && Keys(before.values) <= Keys(after.values)
    && after.name == before.name && before.children <= after.children
  }

  lemma GrowsTransitive(a: Node, b: Node, c: Node)
    requires Grows(a, b) && Grows(b, c)
    ensures Grows(a, c)
  {
  }

  /** The loop of parseDirect only adds to the node, whatever it answers. */
  lemma {:induction false} ParseGrows(s: string, i: nat, node: Node)
    requires i <= |s| && Sorted(node.values)
    ensures Grows(node, ParseDirect(s, i, node).node)
    decreases |s| - i, 2
  {
    var b := SpacesEnd(s, i);
    if !(At(s, b) == '\0' || At(s, b) == '}') {
      EntryGrows(s, b, node);
    }
  }

  lemma {:induction false} EntryGrows(s: string, b: nat, node: Node)
    requires b <= |s| && Sorted(node.values)
    ensures Grows(node, EntryAt(s, b, node).node)
    decreases |s| - b, 1
  {
    var name := ParseName(s, b);
    if At(s, name.pos) == '=' {
      var value := ParseValue(s, name.pos + 1);
      if At(s, value.pos) == ';' {
        var node' := node.(values := Assign(node.values, name.text, value.text));
        ValueStep(s, b, name, node, value, value.pos + 1, node');
        AssignSorted(node.values, name.text, value.text);
        ParseGrows(s, value.pos + 1, node');
        GrowsTransitive(node, node', ParseDirect(s, value.pos + 1, node').node);
      }
    } else if At(s, name.pos) == '{' {
      var child := ParseDirect(s, name.pos + 1, Node(name.text, [], []));
      if At(s, child.pos) == '}' {
        var node' := node.(children := node.children + [child.node]);
        ChildStep(s, b, name, node, child, child.pos + 1, node');
        ParseGrows(s, child.pos + 1, node');
        GrowsTransitive(node, node', ParseDirect(s, child.pos + 1, node').node);
      }
    }
  }

  /** An entry `name = value;` overwrites: right after it, the name finds that value. */
  lemma ValueOverwrites(s: string, b: nat, node: Node)
    requires b <= |s| && Sorted(node.values)
    requires At(s, ParseName(s, b).pos) == '='
    requires At(s, ParseValue(s, ParseName(s, b).pos + 1).pos) == ';'
    ensures var name := ParseName(s, b);
      var value := ParseValue(s, name.pos + 1);
      var node' := node.(values := Assign(node.values, name.text, value.text));
      && EntryAt(s, b, node) == ParseDirect(s, value.pos + 1, node')
      && Find(node'.values, name.text) == Some(value.text)
  {
    var name := ParseName(s, b);
    var value := ParseValue(s, name.pos + 1);
    ValueStep(s, b, name, node, value, value.pos + 1, node.(values := Assign(node.values, name.text, value.text)));
    FindAfterAssign(node.values, name.text, value.text, name.text);
  }

  /** The first entry of "a = 1; a = 2;" stores 1 under a. */
  lemma FirstOfDuplicates(s: string)
    requires s == "a = 1; a = 2;"
    ensures ParseDirect(s, 0, Node("", [], [])) == ParseDirect(s, 6, Node("", [Entry("a", "1")], []))
  {
    assert ParseName(s, 0) == Scanned("a", 2) by {
      assert IdentsEnd(s, 1) == 1 && SpacesEnd(s, 2) == 2;
    }
    assert ParseValue(s, 3) == Scanned("1", 5) by {
      assert SpacesEnd(s, 4) == 4 && UntilEnd(s, 5, ';') == 5;
    }
    Enter(s, 0, Node("", [], []));
    ValueStep(s, 0, Scanned("a", 2), Node("", [], []), Scanned("1", 5), 6, Node("", [Entry("a", "1")], []));
  }

  /** The second entry of "a = 1; a = 2;" overwrites a with 2, and the text ends. */
  lemma SecondOfDuplicates(s: string)
    requires s == "a = 1; a = 2;"
    ensures ParseDirect(s, 6, Node("", [Entry("a", "1")], [])) == Parsed(true, Node("", [Entry("a", "2")], []), 13)
  {
    var n1, n2 := Node("", [Entry("a", "1")], []), Node("", [Entry("a", "2")], []);
    assert ParseName(s, 7) == Scanned("a", 9) by {
      assert IdentsEnd(s, 8) == 8 && SpacesEnd(s, 9) == 9;
    }
    assert ParseValue(s, 10) == Scanned("2", 12) by {
      assert SpacesEnd(s, 11) == 11 && UntilEnd(s, 12, ';') == 12;
    }
    assert SpacesEnd(s, 6) == 7;
    Enter(s, 6, n1);
    ValueStep(s, 7, Scanned("a", 9), n1, Scanned("2", 12), 13, n2);
  }

  /** Of two values under one name, the later one stays. */
  lemma LaterDuplicateWins()
    ensures Parse(Some("a = 1; a = 2;"), Node("", [], [])) == Parsed(true, Node("", [Entry("a", "2")], []), 13)
  {
    FirstOfDuplicates("a = 1; a = 2;");
    SecondOfDuplicates("a = 1; a = 2;");
  }

  /**
   * A child block whose own parse fails on a '}' is still appended: in
   * "a { b }" the child "a" fails on the name "b" that is followed by
   * neither '=' nor '{', and the whole text parses.
   */
  lemma FailedChildAccepted()
    ensures !ParseDirect("a { b }", 3, Node("a", [], [])).ok
    ensures Parse(Some("a { b }"), Node("", [], [])) == Parsed(true, Node("", [], [Node("a", [], [])]), 7)
  {
    var s := "a { b }";
    var child := Node("a", [], []);
    assert ParseName(s, 4) == Scanned("b", 6) by {
      assert IdentsEnd(s, 5) == 5 && SpacesEnd(s, 6) == 6;
    }
    assert SpacesEnd(s, 3) == 4;
    Enter(s, 3, child);
    assert ParseDirect(s, 3, child) == Parsed(false, child, 6);
    assert ParseName(s, 0) == Scanned("a", 2) by {
      assert IdentsEnd(s, 1) == 1 && SpacesEnd(s, 2) == 2;
    }
    ChildStep(s, 0, Scanned("a", 2), Node("", [], []), Parsed(false, child, 6), 7, Node("", [], [child]));
  }
}
