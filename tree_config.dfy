/**
 * TreeConfigNode and its text format (utility/tree_config.hpp).
 *
 * A node has a name, a std::map of string values and a list of children.
 * The text format nests nodes in braces and writes each value as
 * `key = value;`, escaping `;` and `\` with a backslash. A node is a value
 * here: the parent pointer survives only as the flag hasParent of the
 * serialiser, and the pointers the node operations return become indices
 * into the children.
 *
 * The parser reads a const char* up to its '\0': At gives '\0' at and past
 * the end, and an embedded '\0' stops every scan, since each one stops at
 * the first character it does not accept.
 */
module TreeConfig {
  import opened Wrappers
  import opened TextUtility
  import opened OrderedMap
  import opened Converters

  datatype Node = Node(name: string, values: Entries, children: seq<Node>)

  /** What a parse leaves: its verdict, the node it filled and where the pointer stopped. */
  datatype Parsed = Parsed(ok: bool, node: Node, pos: nat)

  // ---------------------------------------------------------------------------
  // Characters

  /** std::isprint in the "C" locale. */
  predicate IsPrint(c: char) {
    ' ' <= c <= '~'
  }

  /** The characters that end a name. */
  predicate EndsName(c: char) {
    c == '=' || c == '{' || c == '}'
  }

  /** The scan of parseName: the first position from i on that is not printable or ends a name. */
  function NameEnd(s: string, i: nat): (j: nat)
    requires i <= |s|
    ensures i <= j <= |s|
    decreases |s| - i
  {
    if i < |s| && IsPrint(s[i]) && !EndsName(s[i]) then NameEnd(s, i + 1) else i
  }

  /** The trim of parseName: e moved back over whitespace, but not below b. */
  function TrimmedEnd(s: string, b: nat, e: nat): (t: nat)
    requires b <= e <= |s|
    ensures b <= t <= e
    decreases e
  {
    if b < e && IsSpace(s[e - 1]) then TrimmedEnd(s, b, e - 1) else e
  }

  /**
   * parseName: skip whitespace, read printable characters up to '=', '{'
   * or '}', and drop trailing whitespace. The pointer stays on the
   * character that ended the name.
   */
  function ParseName(s: string, i: nat): (r: Scanned)
    requires i <= |s|
    ensures i <= r.pos <= |s|
  {
    var b := SpacesEnd(s, i);
    var e := NameEnd(s, b);
    Scanned(s[b..TrimmedEnd(s, b, e)], e)
  }

  /**
   * The loop of parseValue from position i, escaped telling whether the
   * character before was an escaping backslash: a backslash escapes the
   * next character and is dropped; an unescaped ';' or a '\0' ends the value.
   */
  function ScanValue(s: string, i: nat, escaped: bool): (r: Scanned)
    requires i <= |s|
    ensures i <= r.pos <= |s|
    decreases |s| - i
  {
    if At(s, i) == '\0' || (s[i] == ';' && !escaped) then Scanned("", i)
    else
      var escapes := !escaped && s[i] == '\\';
      var rest := ScanValue(s, i + 1, escapes);
      Scanned((if escapes then "" else [s[i]]) + rest.text, rest.pos)
  }

  /** parseValue: skip whitespace, then scan the value. */
  function ParseValue(s: string, i: nat): (r: Scanned)
    requires i <= |s|
    ensures i <= r.pos <= |s|
  {
    ScanValue(s, SpacesEnd(s, i), false)
  }

  // ---------------------------------------------------------------------------
  // The parser

  /**
   * parseTreeConfigDirect from position i into node: after whitespace a '{'
   * must follow, then the entries. On success the pointer stays on the
   * closing '}'. Values go in with storeValue, so an earlier key wins;
   * children are appended in order, before their own parse.
   */
  function ParseNode(s: string, i: nat, node: Node): (r: Parsed)
    requires i <= |s|
    ensures i <= r.pos <= |s| && (r.ok ==> At(s, r.pos) == '}')
    decreases |s| - i, 0
  {
    var j := SpacesEnd(s, i);
    if At(s, j) != '{' then Parsed(false, node, j)
    else ParseEntries(s, j + 1, node)
  }

  /** The for loop of parseTreeConfigDirect from position i: read a name, then act on what follows it. */
  function ParseEntries(s: string, i: nat, node: Node): (r: Parsed)
    requires i <= |s|
    ensures i <= r.pos <= |s| && (r.ok ==> At(s, r.pos) == '}')
    ensures r.node.name == node.name
    decreases |s| - i, 2
  {
    EntryAt(s, ParseName(s, i), node)
  }

  /**
   * One round of the loop, after the name: a name followed by '=' is a
   * value that must end in ';'; a name followed by '{' is a child; a '}'
   * ends the node, successfully only when no name came before it; anything
   * else fails.
   */
  function EntryAt(s: string, name: Scanned, node: Node): (r: Parsed)
    requires name.pos <= |s|
    ensures name.pos <= r.pos <= |s| && (r.ok ==> At(s, r.pos) == '}')
    ensures r.node.name == node.name
    decreases |s| - name.pos, 1
  {
    var j := name.pos;
    if At(s, j) == '=' then
      var value := ParseValue(s, j + 1);
      if At(s, value.pos) != ';' then Parsed(false, node, value.pos)
      else ParseEntries(s, value.pos + 1, node.(values := Insert(node.values, name.text, value.text)))
    else if At(s, j) == '{' then
      var child := ParseNode(s, j, Node(name.text, [], []));
      var node' := node.(children := node.children + [child.node]);
      if !child.ok then Parsed(false, node', child.pos)
      else ParseEntries(s, child.pos + 1, node')
    else if At(s, j) == '}' then Parsed(|name.text| == 0, node, j)
    else Parsed(false, node, j)
  }

  /** parseTreeConfig: a null pointer fails; otherwise parse from the start. */
  function ParseTreeConfig(s: Option<string>, node: Node): (r: Parsed)
    ensures s.None? ==> !r.ok && r.node == node
  {
    if s.None? then Parsed(false, node, 0) else ParseNode(s.value, 0, node)
  }

  // ---------------------------------------------------------------------------
  // The serialiser

  /** Every ';' and '\' gets a backslash before it. */
  function Escape(v: string): string {
    if v == [] then []
    else (if v[0] == ';' || v[0] == '\\' then ['\\', v[0]] else [v[0]]) + Escape(v[1..])
  }

  /** One value: a new line, the indentation, `key = value;` with the value escaped. */
  function EntryText(e: Entry, indentation: nat): string {
    "\n" + Tabs(indentation) + e.key + " = " + Escape(e.value) + ";"
  }

  function EntriesText(vs: Entries, indentation: nat): string {
    if vs == [] then [] else EntryText(vs[0], indentation) + EntriesText(vs[1..], indentation)
  }

  /**
   * serializeTreeConfigDirect at the given indentation: a new line, the
   * indentation, the name (for a node with a parent) and '{'; then the body.
   */
  function Serialize(t: Node, indentation: nat, hasParent: bool): string
    decreases t, 2, 0
  {
    "\n" + Tabs(indentation) + (if hasParent then t.name + " " else "") + "{" + Body(t, indentation)
  }

  /** The values one level deeper, a new line if there were any, the children one level deeper, then the indented "}\n". */
  function Body(t: Node, indentation: nat): string
    decreases t, 1, 0
  {
    EntriesText(t.values, indentation + 1) + (if |t.values| > 0 then "\n" else "")
    + ChildrenText(t, indentation + 1, 0) + Tabs(indentation) + "}\n"
  }

  /** The children of t from index k on, each serialised with a parent. */
  function ChildrenText(t: Node, indentation: nat, k: nat): string
    decreases t, 0, |t.children| - k
  {
    if k >= |t.children| then []
    else Serialize(t.children[k], indentation, true) + ChildrenText(t, indentation, k + 1)
  }

  /** serializeTreeConfig: the root at indentation 0. */
  function SerializeTreeConfig(t: Node, hasParent: bool): string {
    Serialize(t, 0, hasParent)
  }

  // ---------------------------------------------------------------------------
  // The round trip

  /** A name the parser reads back: printable, without '=', '{', '}' and without surrounding whitespace. */
  predicate ReadableName(n: string) {
    (forall k | 0 <= k < |n| :: IsPrint(n[k]) && !EndsName(n[k]))
    && (|n| > 0 ==> n[0] != ' ' && n[|n| - 1] != ' ')
  }

  /** A value the parser reads back: no '\0' and no leading whitespace. */
  predicate ReadableValue(v: string) {
    (forall k | 0 <= k < |v| :: v[k] != '\0') && (|v| > 0 ==> !IsSpace(v[0]))
  }

  /** A tree the serialiser writes so that the parser reads it back. */
  predicate Readable(t: Node) {
    Sorted(t.values)
    && (forall e | e in t.values :: ReadableName(e.key) && ReadableValue(e.value))
    && (forall c | c in t.children :: ReadableName(c.name) && Readable(c))
  }

  /** A readable name before a character that ends one: the scan stops right after the name. */
  lemma {:induction false} NameEndAfter(s: string, i: nat, x: string)
    requires Has(s, i, x) && forall k | 0 <= k < |x| :: IsPrint(x[k]) && !EndsName(x[k])
    requires EndsName(At(s, i + |x|))
    ensures NameEnd(s, i) == i + |x|
    decreases |x|
  {
    if x != [] {
      HasAt(s, i, x, 0);
      HasConcat(s, i, x[..1], x[1..]);
      assert x == x[..1] + x[1..];
      NameEndAfter(s, i + 1, x[1..]);
    }
  }

  /**
   * Whitespace, a readable name, one space and then '=' or '{' at e:
   * parseName reads exactly the name and stops on that character.
   */
  lemma ParseNameOf(s: string, i: nat, w: string, n: string, e: nat)
    requires Has(s, i, w) && (forall k | 0 <= k < |w| :: IsSpace(w[k])) && Has(s, i + |w|, n) && ReadableName(n)
    requires e == i + |w| + |n| + 1 && e < |s| && s[e - 1] == ' ' && (s[e] == '=' || s[e] == '{')
    ensures ParseName(s, i) == Scanned(n, e)
  {
    if n == [] {
      EmptyNameOf(s, i, w, e);
    } else {
      NonEmptyNameOf(s, i, w, n, e);
    }
  }

  /** Whitespace, one space and a character that ends a name: the name is empty. */
  lemma EmptyNameOf(s: string, i: nat, w: string, e: nat)
    requires Has(s, i, w) && (forall k | 0 <= k < |w| :: IsSpace(w[k])) && e == i + |w| + 1
    requires e < |s| && s[e - 1] == ' ' && (s[e] == '=' || s[e] == '{')
    ensures ParseName(s, i) == Scanned("", e)
  {
    HasChar(s, e - 1, ' ');
    HasConcat(s, i, w, " ");
    SpacesEndAfter(s, i, w + " ");
    NameEndAfter(s, e, []);
    ParseNameIs(s, i, e, e, e);
  }

  /** Whitespace, a readable name that is not empty, one space and a character that ends a name. */
  lemma NonEmptyNameOf(s: string, i: nat, w: string, n: string, e: nat)
    requires Has(s, i, w) && (forall k | 0 <= k < |w| :: IsSpace(w[k])) && Has(s, i + |w|, n) && ReadableName(n)
    requires n != [] && e == i + |w| + |n| + 1 && e < |s| && s[e - 1] == ' ' && (s[e] == '=' || s[e] == '{')
    ensures ParseName(s, i) == Scanned(n, e)
  {
    var b := i + |w|;
    HasAt(s, b, n, 0);
    SpacesEndAfter(s, i, w);
    HasChar(s, e - 1, ' ');
    HasConcat(s, b, n, " ");
    NameEndAfter(s, b, n + " ");
    HasAt(s, b, n, |n| - 1);
    TrimmedOneSpace(s, b, e);
    ParseNameIs(s, i, b, e, e - 1);
  }

  lemma ParseNameIs(s: string, i: nat, b: nat, e: nat, t: nat)
    requires i <= |s| && SpacesEnd(s, i) == b && NameEnd(s, b) == e && TrimmedEnd(s, b, e) == t
    ensures ParseName(s, i) == Scanned(s[b..t], e)
  {
  }

  /** A name that ends in one space before a non-space: the trim drops just that space. */
  lemma TrimmedOneSpace(s: string, b: nat, e: nat)
    requires b + 1 < e <= |s| && s[e - 1] == ' ' && !IsSpace(s[e - 2])
    ensures TrimmedEnd(s, b, e) == e - 1
  {
    assert TrimmedEnd(s, b, e) == TrimmedEnd(s, b, e - 1);
  }

  /** Whitespace and then '}': parseName reads the empty name and stops on the '}'. */
  lemma ParseNameAtClose(s: string, i: nat, w: string)
    requires Has(s, i, w) && (forall k | 0 <= k < |w| :: IsSpace(w[k])) && i + |w| < |s| && s[i + |w|] == '}'
    ensures ParseName(s, i) == Scanned("", i + |w|)
  {
    SpacesEndAfter(s, i, w);
  }

  /** An escaped value followed by ';': the scan gives the value back and stops on the ';'. */
  lemma {:induction false} ScanEscaped(s: string, i: nat, v: string)
    requires Has(s, i, Escape(v) + ";") && forall k | 0 <= k < |v| :: v[k] != '\0'
    ensures ScanValue(s, i, false) == Scanned(v, i + |Escape(v)|)
    decreases |v|
  {
    if v == [] {
      HasAt(s, i, ";", 0);
    } else {
      var head := if v[0] == ';' || v[0] == '\\' then ['\\', v[0]] else [v[0]];
      assert Escape(v) == head + Escape(v[1..]);
      assert Escape(v) + ";" == head + (Escape(v[1..]) + ";");
      HasConcat(s, i, head, Escape(v[1..]) + ";");
      HasAt(s, i, head, 0);
      if |head| == 2 {
        HasAt(s, i, head, 1);
      }
      ScanEscaped(s, i + |head|, v[1..]);
      assert [v[0]] + v[1..] == v;
    }
  }

  /** Whitespace before the next name leaves the loop of the parser where it was. */
  lemma {:induction false} SpaceSkipped(s: string, i: nat, node: Node)
    requires i < |s| && IsSpace(s[i])
    ensures ParseEntries(s, i, node) == ParseEntries(s, i + 1, node)
  {
    assert SpacesEnd(s, i) == SpacesEnd(s, i + 1);
    assert ParseName(s, i) == ParseName(s, i + 1);
    assert ParseEntries(s, i, node) == EntryAt(s, ParseName(s, i), node);
  }

  lemma {:induction false} SkipWhitespace(s: string, i: nat, w: string, node: Node, next: nat)
    requires Has(s, i, w) && (forall k | 0 <= k < |w| :: IsSpace(w[k])) && next == i + |w|
    ensures ParseEntries(s, i, node) == ParseEntries(s, next, node)
    decreases |w|
  {
    if w != [] {
      HasAt(s, i, w, 0);
      SpaceSkipped(s, i, node);
      HasConcat(s, i, w[..1], w[1..]);
      assert w == w[..1] + w[1..];
      SkipWhitespace(s, i + 1, w[1..], node, next);
    }
  }

  /** The indentation before an entry or a child: a new line and tabs, all whitespace. */
  lemma IndentIsBlank(indentation: nat)
    ensures forall k | 0 <= k < |Tabs(indentation)| :: IsSpace(Tabs(indentation)[k])
    ensures var w := "\n" + Tabs(indentation); forall k | 0 <= k < |w| :: IsSpace(w[k])
  {
  }

  /** One round of the loop over '=' and a value that ends in ';'. */
  lemma ValueStep(s: string, name: Scanned, node: Node, value: Scanned, next: nat, node': Node)
    requires name.pos < |s| && s[name.pos] == '='
    requires ParseValue(s, name.pos + 1) == value && At(s, value.pos) == ';'
    requires next == value.pos + 1 && node' == node.(values := Insert(node.values, name.text, value.text))
    ensures EntryAt(s, name, node) == ParseEntries(s, next, node')
  {
  }

  /** One round of the loop over '{' and a child that parses. */
  lemma ChildStep(s: string, name: Scanned, node: Node, child: Parsed, next: nat, node': Node)
    requires name.pos < |s| && s[name.pos] == '{'
    requires ParseNode(s, name.pos, Node(name.text, [], [])) == child && child.ok
    requires next == child.pos + 1 && node' == node.(children := node.children + [child.node])
    ensures EntryAt(s, name, node) == ParseEntries(s, next, node')
  {
  }

  /** The round of the loop that meets '}' with no name before it. */
  lemma CloseStep(s: string, j: nat, node: Node)
    requires j < |s| && s[j] == '}'
    ensures EntryAt(s, Scanned("", j), node) == Parsed(true, node, j)
  {
  }

  /** A '{' right at the start: parseTreeConfigDirect goes on to the entries after it. */
  lemma OpenStep(s: string, j: nat, node: Node)
    requires j < |s| && s[j] == '{'
    ensures ParseNode(s, j, node) == ParseEntries(s, j + 1, node)
  {
    SpacesEndAfter(s, j, []);
  }

  /** An escaped readable value followed by ';' does not start with whitespace. */
  lemma EscapedStart(v: string)
    requires ReadableValue(v)
    ensures !IsSpace((Escape(v) + ";")[0])
  {
    if v != [] {
      assert Escape(v)[0] == if v[0] == ';' || v[0] == '\\' then '\\' else v[0];
    }
  }

  /** One space, an escaped readable value and ';': parseValue reads the value and stops on the ';' at end. */
  lemma ParseValueOf(s: string, p: nat, v: string, end: nat)
    requires p < |s| && s[p] == ' ' && Has(s, p + 1, Escape(v)) && ReadableValue(v)
    requires end == p + 1 + |Escape(v)| && end < |s| && s[end] == ';'
    ensures ParseValue(s, p) == Scanned(v, end) && At(s, end) == ';'
  {
    HasChar(s, end, ';');
    HasConcat(s, p + 1, Escape(v), ";");
    HasAt(s, p + 1, Escape(v) + ";", 0);
    EscapedStart(v);
    HasChar(s, p, ' ');
    SpacesEndAfter(s, p, " ");
    ScanEscaped(s, p + 1, v);
  }

  /** Where the name, the '=', the value and the ';' of one value's text are, and what parsing them reads. */
  lemma EntryParses(s: string, i: nat, e: Entry, indentation: nat, j: nat, k: nat)
    requires Has(s, i, EntryText(e, indentation))
    requires ReadableName(e.key) && ReadableValue(e.value)
    requires j == i + indentation + |e.key| + 2 && k == j + 2 + |Escape(e.value)|
    ensures ParseName(s, i) == Scanned(e.key, j) && j < |s| && s[j] == '='
    ensures ParseValue(s, j + 1) == Scanned(e.value, k) && At(s, k) == ';'
    ensures k + 1 == i + |EntryText(e, indentation)|
  {
    EntryLayout(s, i, e, indentation, j, k);
    IndentIsBlank(indentation);
    ParseNameOf(s, i, "\n" + Tabs(indentation), e.key, j);
    ParseValueOf(s, j + 1, e.value, k);
  }

  /** Where the indentation, the name, the " = ", the escaped value and the ';' of one value's text are. */
  lemma EntryLayout(s: string, i: nat, e: Entry, indentation: nat, j: nat, k: nat)
    requires Has(s, i, EntryText(e, indentation))
    requires j == i + indentation + |e.key| + 2 && k == j + 2 + |Escape(e.value)|
    ensures Has(s, i, "\n" + Tabs(indentation)) && Has(s, i + indentation + 1, e.key) && Has(s, j + 2, Escape(e.value))
    ensures j + 1 < |s| && s[j - 1] == ' ' && s[j] == '=' && s[j + 1] == ' '
    ensures k < |s| && s[k] == ';' && k + 1 == i + |EntryText(e, indentation)|
  {
    var w := "\n" + Tabs(indentation);
    Split5(s, i, w, e.key, " = ", Escape(e.value), ";", i + |w|, j - 1, j + 2, k);
    EntryMarks(s, j, k);
  }

  /** The " = " after a name and the ";" after a value, character by character. */
  lemma EntryMarks(s: string, j: nat, k: nat)
    requires j >= 1 && Has(s, j - 1, " = ") && Has(s, k, ";")
    ensures j + 1 < |s| && s[j - 1] == ' ' && s[j] == '=' && s[j + 1] == ' '
    ensures k < |s| && s[k] == ';'
  {
    HasAt(s, j - 1, " = ", 0);
    HasAt(s, j - 1, " = ", 1);
    HasAt(s, j - 1, " = ", 2);
    HasAt(s, k, ";", 0);
  }

  /** One value's text: parsing it stores the value, which goes last since its key is above every present key. */
  lemma EntryRoundTrip(s: string, i: nat, e: Entry, indentation: nat, node: Node, next: nat, node': Node)
    requires Has(s, i, EntryText(e, indentation))
    requires ReadableName(e.key) && ReadableValue(e.value)
    requires forall x | x in Keys(node.values) :: Less(x, e.key)
    requires next == i + |EntryText(e, indentation)| && node' == node.(values := node.values + [e])
    ensures ParseEntries(s, i, node) == ParseEntries(s, next, node')
  {
    var j := i + indentation + |e.key| + 2;
    var k := j + 2 + |Escape(e.value)|;
    EntryParses(s, i, e, indentation, j, k);
    InsertGreatest(node.values, e.key, e.value);
    ValueStep(s, Scanned(e.key, j), node, Scanned(e.value, k), next, node');
  }

  /** The first value of a run: its text comes first, and it is readable. */
  lemma EntriesHead(s: string, i: nat, vs: Entries, indentation: nat)
    requires Has(s, i, EntriesText(vs, indentation)) && vs != []
    requires forall e | e in vs :: ReadableName(e.key) && ReadableValue(e.value)
    ensures Has(s, i, EntryText(vs[0], indentation))
    ensures Has(s, i + |EntryText(vs[0], indentation)|, EntriesText(vs[1..], indentation))
    ensures |EntriesText(vs, indentation)| == |EntryText(vs[0], indentation)| + |EntriesText(vs[1..], indentation)|
    ensures ReadableName(vs[0].key) && ReadableValue(vs[0].value)
    ensures forall e | e in vs[1..] :: ReadableName(e.key) && ReadableValue(e.value)
  {
    assert vs[0] in vs;
    HasConcat(s, i, EntryText(vs[0], indentation), EntriesText(vs[1..], indentation));
  }

  /** The values text of a sorted run of readable values: parsing it stores exactly those values. */
  lemma {:induction false} EntriesRoundTrip(s: string, i: nat, vs: Entries, indentation: nat, node: Node, next: nat, node': Node)
    requires Has(s, i, EntriesText(vs, indentation))
    requires Sorted(node.values + vs)
    requires forall e | e in vs :: ReadableName(e.key) && ReadableValue(e.value)
    requires next == i + |EntriesText(vs, indentation)| && node' == node.(values := node.values + vs)
    ensures ParseEntries(s, i, node) == ParseEntries(s, next, node')
    decreases |vs|
  {
    if vs == [] {
      assert node' == node;
    } else {
      var m := i + |EntryText(vs[0], indentation)|;
      var n1 := node.(values := node.values + [vs[0]]);
      EntriesHead(s, i, vs, indentation);
      SortedPrefixBelow(node.values, vs);
      EntryRoundTrip(s, i, vs[0], indentation, node, m, n1);
      EntriesRoundTrip(s, m, vs[1..], indentation, n1, next, node');
    }
  }

  /** Where the name, the '{' and the body of a serialised child are, and what parseName reads. */
  lemma ChildParses(s: string, i: nat, c: Node, indentation: nat, j: nat, next: nat)
    requires Has(s, i, Serialize(c, indentation, true)) && ReadableName(c.name)
    requires j == i + indentation + |c.name| + 2 && next == i + |Serialize(c, indentation, true)|
    ensures ParseName(s, i) == Scanned(c.name, j) && j < |s| && s[j] == '{'
    ensures Has(s, j + 1, Body(c, indentation)) && next == j + 1 + |Body(c, indentation)|
  {
    var w := "\n" + Tabs(indentation);
    Split4(s, i, w, c.name + " ", "{", Body(c, indentation), i + |w|, j, j + 1);
    HasConcat(s, i + |w|, c.name, " ");
    HasAt(s, j - 1, " ", 0);
    HasAt(s, j, "{", 0);
    IndentIsBlank(indentation);
    ParseNameOf(s, i, w, c.name, j);
  }

  /** A body ends in a new line. */
  lemma BodyEndsInNewline(s: string, i: nat, t: Node, indentation: nat, last: nat)
    requires Has(s, i, Body(t, indentation)) && last == i + |Body(t, indentation)| - 1
    ensures last < |s| && s[last] == '\n'
  {
    HasAt(s, i, Body(t, indentation), |Body(t, indentation)| - 1);
  }

  /** One serialised child: parsing it appends the child, name and all. */
  lemma {:induction false} ChildRoundTrip(s: string, i: nat, c: Node, indentation: nat, node: Node, next: nat, node': Node)
    requires Has(s, i, Serialize(c, indentation, true))
    requires ReadableName(c.name) && Readable(c)
    requires next == i + |Serialize(c, indentation, true)| && node' == node.(children := node.children + [c])
    ensures ParseEntries(s, i, node) == ParseEntries(s, next, node')
    decreases c, 3, 0
  {
    var j := i + indentation + |c.name| + 2;
    ChildParses(s, i, c, indentation, j, next);
    ChildBody(s, j + 1, c, indentation, next);
    ChildEntered(s, Scanned(c.name, j), node, Parsed(true, c, next - 2), next, node');
  }

  /** The body of a serialised child parses back to the child, and the new line after its '}' follows. */
  lemma ChildBody(s: string, b: nat, c: Node, indentation: nat, next: nat)
    requires Has(s, b, Body(c, indentation)) && Readable(c) && next == b + |Body(c, indentation)|
    ensures 1 < next <= |s| && s[next - 1] == '\n'
    ensures ParseEntries(s, b, Node(c.name, [], [])) == Parsed(true, c, next - 2)
    decreases c, 2, 1
  {
    BodyEndsInNewline(s, b, c, indentation, next - 1);
    assert c.(name := c.name) == c;
    BodyRoundTrip(s, b, c, indentation, c.name, next - 2);
  }

  /**
   * A '{' after the name whose entries parse to body, then whitespace: the
   * child is appended and the loop goes on after the whitespace.
   */
  lemma ChildEntered(s: string, name: Scanned, node: Node, body: Parsed, next: nat, node': Node)
    requires name.pos < |s| && s[name.pos] == '{'
    requires ParseEntries(s, name.pos + 1, Node(name.text, [], [])) == body && body.ok
    requires next == body.pos + 2 && next <= |s| && IsSpace(s[next - 1])
    requires node' == node.(children := node.children + [body.node])
    ensures EntryAt(s, name, node) == ParseEntries(s, next, node')
  {
    OpenStep(s, name.pos, Node(name.text, [], []));
    SpaceSkipped(s, next - 1, node');
  }

  /** The child at index k of a run: its text comes first, and it is readable. */
  lemma ChildrenHead(s: string, i: nat, t: Node, indentation: nat, k: nat, node: Node)
    requires k < |t.children| && Has(s, i, ChildrenText(t, indentation, k))
    requires forall c | c in t.children :: ReadableName(c.name) && Readable(c)
    ensures Has(s, i, Serialize(t.children[k], indentation, true))
    ensures Has(s, i + |Serialize(t.children[k], indentation, true)|, ChildrenText(t, indentation, k + 1))
    ensures |ChildrenText(t, indentation, k)|
         == |Serialize(t.children[k], indentation, true)| + |ChildrenText(t, indentation, k + 1)|
    ensures ReadableName(t.children[k].name) && Readable(t.children[k])
    ensures node.children + t.children[k..] == (node.children + [t.children[k]]) + t.children[k + 1..]
  {
    assert t.children[k] in t.children;
    assert t.children[k..] == [t.children[k]] + t.children[k + 1..];
    HasConcat(s, i, Serialize(t.children[k], indentation, true), ChildrenText(t, indentation, k + 1));
  }

  /** The serialised children of t from index k on: parsing them appends exactly those children. */
  lemma {:induction false} ChildrenRoundTrip(s: string, i: nat, t: Node, indentation: nat, k: nat, node: Node, next: nat, node': Node)
    requires k <= |t.children| && Has(s, i, ChildrenText(t, indentation, k))
    requires forall c | c in t.children :: ReadableName(c.name) && Readable(c)
    requires next == i + |ChildrenText(t, indentation, k)| && node' == node.(children := node.children + t.children[k..])
    ensures ParseEntries(s, i, node) == ParseEntries(s, next, node')
    decreases t, 1, |t.children| - k
  {
    if k == |t.children| {
      assert node' == node;
    } else {
      var m := i + |Serialize(t.children[k], indentation, true)|;
      var n1 := node.(children := node.children + [t.children[k]]);
      ChildrenHead(s, i, t, indentation, k, node);
      ChildRoundTrip(s, i, t.children[k], indentation, node, m, n1);
      ChildrenRoundTrip(s, m, t, indentation, k + 1, n1, next, node');
    }
  }

  /** Where the values, the new line, the children and the closing '}' of a body are. */
  lemma BodyParts(s: string, i: nat, t: Node, indentation: nat, i1: nat, i2: nat, i3: nat, end: nat)
    requires Has(s, i, Body(t, indentation))
    requires i1 == i + |EntriesText(t.values, indentation + 1)|
    requires i2 == i1 + |if |t.values| > 0 then "\n" else ""|
    requires i3 == i2 + |ChildrenText(t, indentation + 1, 0)|
    requires end == i + |Body(t, indentation)| - 2
    ensures Has(s, i, EntriesText(t.values, indentation + 1))
    ensures Has(s, i1, if |t.values| > 0 then "\n" else "")
    ensures Has(s, i2, ChildrenText(t, indentation + 1, 0))
    ensures Has(s, i3, Tabs(indentation)) && end == i3 + indentation && end < |s| && s[end] == '}'
  {
    Split5(s, i, EntriesText(t.values, indentation + 1), if |t.values| > 0 then "\n" else "",
           ChildrenText(t, indentation + 1, 0), Tabs(indentation), "}\n", i1, i2, i3, end);
    HasAt(s, end, "}\n", 0);
  }

  /** Indentation and '}' after the last child: the loop ends there, successfully. */
  lemma CloseRoundTrip(s: string, i: nat, indentation: nat, end: nat, node: Node)
    requires Has(s, i, Tabs(indentation)) && end == i + indentation && end < |s| && s[end] == '}'
    ensures ParseEntries(s, i, node) == Parsed(true, node, end)
  {
    IndentIsBlank(indentation);
    ParseNameAtClose(s, i, Tabs(indentation));
    CloseStep(s, end, node);
  }

  /** What Readable says about the values and the children of a node. */
  lemma ReadableParts(t: Node, n: string)
    requires Readable(t)
    ensures Sorted(Node(n, [], []).values + t.values)
    ensures forall e | e in t.values :: ReadableName(e.key) && ReadableValue(e.value)
    ensures forall c | c in t.children :: ReadableName(c.name) && Readable(c)
    ensures Node(n, t.values, []).children + t.children[0..] == t.children
  {
    assert [] + t.values == t.values;
  }

  /** The values of a body and the new line after them: parsing them stores exactly the values of t. */
  lemma ValuesRoundTrip(s: string, i: nat, t: Node, indentation: nat, n: string, i2: nat)
    requires Has(s, i, EntriesText(t.values, indentation + 1))
    requires Has(s, i + |EntriesText(t.values, indentation + 1)|, if |t.values| > 0 then "\n" else "")
    requires i2 == i + |EntriesText(t.values, indentation + 1)| + |if |t.values| > 0 then "\n" else ""|
    requires Sorted(Node(n, [], []).values + t.values)
    requires forall e | e in t.values :: ReadableName(e.key) && ReadableValue(e.value)
    ensures ParseEntries(s, i, Node(n, [], [])) == ParseEntries(s, i2, Node(n, t.values, []))
  {
    var i1 := i + |EntriesText(t.values, indentation + 1)|;
    assert Node(n, t.values, []) == Node(n, [], []).(values := Node(n, [], []).values + t.values);
    EntriesRoundTrip(s, i, t.values, indentation + 1, Node(n, [], []), i1, Node(n, t.values, []));
    SkipWhitespace(s, i1, if |t.values| > 0 then "\n" else "", Node(n, t.values, []), i2);
  }

  /** The body of a readable node t: parsing it into an empty node named n gives t under the name n. */
  lemma {:induction false} BodyRoundTrip(s: string, i: nat, t: Node, indentation: nat, n: string, end: nat)
    requires Has(s, i, Body(t, indentation)) && Readable(t)
    requires end == i + |Body(t, indentation)| - 2
    ensures ParseEntries(s, i, Node(n, [], [])) == Parsed(true, t.(name := n), end)
    decreases t, 2, 0
  {
    var i1 := i + |EntriesText(t.values, indentation + 1)|;
    var i2 := i1 + |if |t.values| > 0 then "\n" else ""|;
    var i3 := i2 + |ChildrenText(t, indentation + 1, 0)|;
    BodyParts(s, i, t, indentation, i1, i2, i3, end);
    ReadableParts(t, n);
    ValuesRoundTrip(s, i, t, indentation, n, i2);
    ChildrenThenClose(s, i2, t, indentation, n, i3, end);
  }

  /** The children of a body and its closing '}': parsing them appends the children and ends the node there. */
  lemma {:induction false} ChildrenThenClose(s: string, i2: nat, t: Node, indentation: nat, n: string, i3: nat, end: nat)
    requires Has(s, i2, ChildrenText(t, indentation + 1, 0)) && i3 == i2 + |ChildrenText(t, indentation + 1, 0)|
    requires Has(s, i3, Tabs(indentation)) && end == i3 + indentation && end < |s| && s[end] == '}'
    requires forall c | c in t.children :: ReadableName(c.name) && Readable(c)
    ensures ParseEntries(s, i2, Node(n, t.values, [])) == Parsed(true, t.(name := n), end)
    decreases t, 1, |t.children| + 1
  {
    var n1, n2 := Node(n, t.values, []), Node(n, t.values, t.children);
    assert n2 == n1.(children := n1.children + t.children[0..]);
    ChildrenRoundTrip(s, i2, t, indentation + 1, 0, n1, i3, n2);
    CloseRoundTrip(s, i3, indentation, end, n2);
    assert t.(name := n) == n2;
  }

  /**
   * serializeTreeConfig then parseTreeConfig: a readable tree comes back
   * whole except for its name, which is the name of the node parsed into.
   * The parse stops on the final '}'.
   */
  lemma SerializeRoundTrip(t: Node, n: string)
    requires Readable(t)
    ensures var s := SerializeTreeConfig(t, false);
      ParseTreeConfig(Some(s), Node(n, [], [])) == Parsed(true, t.(name := n), |s| - 2)
  {
    var s := SerializeTreeConfig(t, false);
    SerializedHead(t, s);
    BodyRoundTrip(s, 2, t, 0, n, |s| - 2);
  }

  /** The text of a root: a new line and '{', then the body. */
  lemma SerializedHead(t: Node, s: string)
    requires s == SerializeTreeConfig(t, false)
    ensures Has(s, 2, Body(t, 0)) && |s| == 2 + |Body(t, 0)| && SpacesEnd(s, 0) == 1 && s[1] == '{'
  {
    assert Tabs(0) == "";
    assert s == "\n{" + Body(t, 0);
    assert Has(s, 0, "\n{" + Body(t, 0));
    HasConcat(s, 0, "\n{", Body(t, 0));
    HasAt(s, 0, "\n{", 0);
    HasAt(s, 0, "\n{", 1);
    SpacesEndAfter(s, 0, "\n");
  }

  // ---------------------------------------------------------------------------
  // What the parser promises

  /** The name scan passes only printable characters other than '=', '{', '}' and stops on the first other one. */
  lemma {:induction false} NameEndStops(s: string, i: nat)
    requires i <= |s|
    ensures !IsPrint(At(s, NameEnd(s, i))) || EndsName(At(s, NameEnd(s, i)))
    ensures forall k | i <= k < NameEnd(s, i) :: IsPrint(s[k]) && !EndsName(s[k])
    decreases |s| - i
  {
    if i < |s| && IsPrint(s[i]) && !EndsName(s[i]) {
      NameEndStops(s, i + 1);
    }
  }

  /** The trim drops only whitespace and keeps a last character that is not whitespace. */
  lemma {:induction false} TrimmedEndStops(s: string, b: nat, e: nat)
    requires b <= e <= |s|
    ensures TrimmedEnd(s, b, e) == b || !IsSpace(s[TrimmedEnd(s, b, e) - 1])
    ensures forall k | TrimmedEnd(s, b, e) <= k < e :: IsSpace(s[k])
    decreases e
  {
    if b < e && IsSpace(s[e - 1]) {
      TrimmedEndStops(s, b, e - 1);
    }
  }

  /**
   * parseName: the pointer stops on '=', '{', '}' or a character that is not
   * printable; the name is printable, holds none of '=', '{', '}', and has
   * no whitespace at either end.
   */
  lemma ParsedNameIsTrimmed(s: string, i: nat)
    requires i <= |s|
    ensures var r := ParseName(s, i);
      && (!IsPrint(At(s, r.pos)) || EndsName(At(s, r.pos)))
      && (forall k | 0 <= k < |r.text| :: IsPrint(r.text[k]) && !EndsName(r.text[k]))
      && (|r.text| > 0 ==> !IsSpace(r.text[0]) && !IsSpace(r.text[|r.text| - 1]))
  {
    var b := SpacesEnd(s, i);
    var e := NameEnd(s, b);
    var t := TrimmedEnd(s, b, e);
    SpacesEndStops(s, i);
    NameEndStops(s, b);
    TrimmedEndStops(s, b, e);
    var r := ParseName(s, i);
    assert r.text == s[b..t];
    forall k | 0 <= k < |r.text| ensures IsPrint(r.text[k]) && !EndsName(r.text[k]) {
      assert r.text[k] == s[b + k];
    }
    if |r.text| > 0 {
      assert r.text[0] == s[b] && r.text[|r.text| - 1] == s[t - 1];
    }
  }

  /** The value scan stops on an unescaped ';' or on the end of the text. */
  lemma {:induction false} ScanValueStops(s: string, i: nat, escaped: bool)
    requires i <= |s|
    ensures At(s, ScanValue(s, i, escaped).pos) == '\0' || At(s, ScanValue(s, i, escaped).pos) == ';'
    decreases |s| - i
  {
    if !(At(s, i) == '\0' || (s[i] == ';' && !escaped)) {
      ScanValueStops(s, i + 1, !escaped && s[i] == '\\');
    }
  }

  /** parseValue stops on ';' or on the end of the text; anything else is part of the value. */
  lemma ParseValueStops(s: string, i: nat)
    requires i <= |s|
    ensures At(s, ParseValue(s, i).pos) == '\0' || At(s, ParseValue(s, i).pos) == ';'
  {
    ScanValueStops(s, SpacesEnd(s, i), false);
  }

  /** parseTreeConfig fails on a null pointer and on a text whose first non-space character is not '{'. */
  lemma ParseNeedsOpeningBrace(s: Option<string>, node: Node)
    requires s.Some? ==> At(s.value, SpacesEnd(s.value, 0)) != '{'
    ensures !ParseTreeConfig(s, node).ok
  {
  }

  /**
   * after only adds to before: the values stay sorted, a value present
   * before (for key k) keeps its value, the name stays and children are
   * only appended.
   */
  predicate Grows(before: Node, after: Node, k: string) {
    && Sorted(after.values) && after.name == before.name && before.children <= after.children
    && (Find(before.values, k).Some? ==> Find(after.values, k) == Find(before.values, k))
  }

  lemma GrowsTransitive(a: Node, b: Node, c: Node, k: string)
    requires Grows(a, b, k) && Grows(b, c, k)
    ensures Grows(a, c, k)
  {
  }

  /**
   * The loop of parseTreeConfigDirect only adds: a value already stored
   * keeps its value (storeValue does not overwrite, so of two equal keys
   * the first wins), the values stay sorted, the name stays and children
   * are only appended.
   */
  lemma {:induction false} EntriesKeep(s: string, i: nat, node: Node, k: string)
    requires i <= |s| && Sorted(node.values)
    ensures Grows(node, ParseEntries(s, i, node).node, k)
    decreases |s| - i, 2
  {
    EntryKeeps(s, ParseName(s, i), node, k);
  }

  /** One round of the loop of parseTreeConfigDirect and all that follow it only add. */
  lemma {:induction false} EntryKeeps(s: string, name: Scanned, node: Node, k: string)
    requires name.pos <= |s| && Sorted(node.values)
    ensures Grows(node, EntryAt(s, name, node).node, k)
    decreases |s| - name.pos, 1
  {
    var j := name.pos;
    if At(s, j) == '=' && At(s, ParseValue(s, j + 1).pos) == ';' {
      ValueKeeps(s, name, node, k);
    } else if At(s, j) == '{' && ParseNode(s, j, Node(name.text, [], [])).ok {
      ChildKeeps(s, name, node, k);
    }
  }

  /** A value that ends in ';' and all the rounds after it only add. */
  lemma {:induction false} ValueKeeps(s: string, name: Scanned, node: Node, k: string)
    requires name.pos < |s| && s[name.pos] == '=' && At(s, ParseValue(s, name.pos + 1).pos) == ';'
    requires Sorted(node.values)
    ensures Grows(node, EntryAt(s, name, node).node, k)
    decreases |s| - name.pos, 0
  {
    var value := ParseValue(s, name.pos + 1);
    var node' := node.(values := Insert(node.values, name.text, value.text));
    ValueStep(s, name, node, value, value.pos + 1, node');
    InsertSorted(node.values, name.text, value.text);
    FindAfterInsert(node.values, name.text, value.text, k);
    EntriesKeep(s, value.pos + 1, node', k);
    GrowsTransitive(node, node', ParseEntries(s, value.pos + 1, node').node, k);
  }

  /** A child that parses and all the rounds after it only add. */
  lemma {:induction false} ChildKeeps(s: string, name: Scanned, node: Node, k: string)
    requires name.pos < |s| && s[name.pos] == '{' && ParseNode(s, name.pos, Node(name.text, [], [])).ok
    requires Sorted(node.values)
    ensures Grows(node, EntryAt(s, name, node).node, k)
    decreases |s| - name.pos, 0
  {
    var child := ParseNode(s, name.pos, Node(name.text, [], []));
    var node' := node.(children := node.children + [child.node]);
    ChildStep(s, name, node, child, child.pos + 1, node');
    EntriesKeep(s, child.pos + 1, node', k);
    GrowsTransitive(node, node', ParseEntries(s, child.pos + 1, node').node, k);
  }
}
