/**
 * parseTreeConfigDirect and serializeTreeConfigDirect as the loops they
 * are (utility/tree_config.hpp). The parser moves a position through the
 * text where the source moves its const char*; the serialiser appends to a
 * string. Each method is proved to compute the function of module
 * TreeConfig that specifies it, so the round trip proved there holds for
 * the loops too.
 */
module TreeConfigText {
  import opened Wrappers
  import opened TextUtility
  import opened OrderedMap
  import opened TreeConfig

  /** parseName: the name read and where the pointer stops. */
  method ParseNameFrom(s: string, i: nat) returns (name: string, j: nat)
    requires i <= |s|
    ensures Scanned(name, j) == ParseName(s, i)
  {
    var b := SkipSpacesFrom(s, i);
    j := b;
    while IsPrint(At(s, j)) && !EndsName(At(s, j))
      invariant b <= j <= |s| && NameEnd(s, j) == NameEnd(s, b)
      decreases |s| - j
    {
      j := j + 1;
    }
    var e := j;
    while b != e && IsSpace(s[e - 1])
      invariant b <= e <= j && TrimmedEnd(s, b, e) == TrimmedEnd(s, b, j)
      decreases e
    {
      e := e - 1;
    }
    name := s[b..e];
  }

  /** One character of the value scan that neither ends the value nor the text. */
  lemma ScanValueStep(s: string, j: nat, escaped: bool, value: string)
    requires j < |s| && At(s, j) != '\0' && !(s[j] == ';' && !escaped)
    ensures var escapes := !escaped && s[j] == '\\';
      var rest := ScanValue(s, j + 1, escapes);
      Scanned(value + ScanValue(s, j, escaped).text, ScanValue(s, j, escaped).pos)
        == Scanned((if escapes then value else value + [s[j]]) + rest.text, rest.pos)
  {
    var escapes := !escaped && s[j] == '\\';
    var rest := ScanValue(s, j + 1, escapes);
    if escapes {
      assert value + ([] + rest.text) == value + rest.text;
    } else {
      Assoc(value, [s[j]], rest.text);
    }
  }

  /** parseValue: the value read, escapes resolved, and where the pointer stops. */
  method ParseValueFrom(s: string, i: nat) returns (value: string, j: nat)
    requires i <= |s|
    ensures Scanned(value, j) == ParseValue(s, i)
  {
    var b := SkipSpacesFrom(s, i);
    j := b;
    value := "";
    var escaped := false;
    while At(s, j) != '\0'
      invariant b <= j <= |s|
      invariant ScanValue(s, b, false) == Scanned(value + ScanValue(s, j, escaped).text, ScanValue(s, j, escaped).pos)
      decreases |s| - j
    {
      if s[j] == ';' && !escaped {
        break;
      }
      ScanValueStep(s, j, escaped, value);
      escaped := if escaped then false else s[j] == '\\';
      if !escaped {
        value := value + [s[j]];
      }
      j := j + 1;
    }
    assert value + "" == value;
  }

  /**
   * parseTreeConfigDirect from position i into node: the verdict, the node
   * as the parse left it and where the pointer stopped.
   */
  method ParseNodeFrom(s: string, i: nat, node: Node) returns (r: Parsed)
    requires i <= |s|
    ensures r == ParseNode(s, i, node)
    decreases |s| - i, 0
  {
    var j := SkipSpacesFrom(s, i);
    if At(s, j) != '{' {
      return Parsed(false, node, j);
    }
    var cur := node;
    j := j + 1;
    while true
      invariant i < j <= |s| && ParseEntries(s, j, cur) == ParseNode(s, i, node)
      decreases |s| - j
    {
      var more, step := ParseEntryFrom(s, j, cur);
      if !more {
        return step;
      }
      j, cur := step.pos, step.node;
    }
  }

  /**
   * One round of the loop of parseTreeConfigDirect from position j: either
   * the loop goes on at step.pos with step.node, or step is what the parse
   * answers.
   */
  method ParseEntryFrom(s: string, j: nat, cur: Node) returns (more: bool, step: Parsed)
    requires j <= |s|
    ensures more ==> j < step.pos <= |s| && ParseEntries(s, j, cur) == ParseEntries(s, step.pos, step.node)
    ensures !more ==> ParseEntries(s, j, cur) == step
    decreases |s| - j, 2
  {
    var name, k := ParseNameFrom(s, j);
    assert ParseEntries(s, j, cur) == EntryAt(s, Scanned(name, k), cur);
    if At(s, k) == '=' {
      more, step := ParseAssignmentFrom(s, name, k, cur);
    } else if At(s, k) == '{' {
      more, step := ParseChildFrom(s, name, k, cur);
    } else if At(s, k) == '}' {
      return false, Parsed(|name| == 0, cur, k);
    } else {
      return false, Parsed(false, cur, k);
    }
  }

  /** The '=' branch of the loop: a value that ends in ';' is stored and the loop goes on after the ';'. */
  method ParseAssignmentFrom(s: string, name: string, k: nat, cur: Node) returns (more: bool, step: Parsed)
    requires k < |s| && s[k] == '='
    ensures more ==> k < step.pos <= |s| && EntryAt(s, Scanned(name, k), cur) == ParseEntries(s, step.pos, step.node)
    ensures !more ==> EntryAt(s, Scanned(name, k), cur) == step
  {
    var value, m := ParseValueFrom(s, k + 1);
    if At(s, m) != ';' {
      return false, Parsed(false, cur, m);
    }
    var next := cur.(values := Insert(cur.values, name, value));
    ValueStep(s, Scanned(name, k), cur, Scanned(value, m), m + 1, next);
    return true, Parsed(true, next, m + 1);
  }

  /** The '{' branch of the loop: the child is parsed and appended, and the loop goes on after its '}'. */
  method ParseChildFrom(s: string, name: string, k: nat, cur: Node) returns (more: bool, step: Parsed)
    requires k < |s| && s[k] == '{'
    ensures more ==> k < step.pos <= |s| && EntryAt(s, Scanned(name, k), cur) == ParseEntries(s, step.pos, step.node)
    ensures !more ==> EntryAt(s, Scanned(name, k), cur) == step
    decreases |s| - k, 1
  {
    var child := ParseNodeFrom(s, k, Node(name, [], []));
    var next := cur.(children := cur.children + [child.node]);
    if !child.ok {
      return false, Parsed(false, next, child.pos);
    }
    ChildStep(s, Scanned(name, k), cur, child, child.pos + 1, next);
    return true, Parsed(true, next, child.pos + 1);
  }

  /** parseTreeConfig: a null pointer fails, anything else is parsed from its start. */
  method ParseTreeConfigFrom(s: Option<string>, node: Node) returns (r: Parsed)
    ensures r == ParseTreeConfig(s, node)
  {
    if s.None? {
      return Parsed(false, node, 0);
    }
    r := ParseNodeFrom(s.value, 0, node);
  }

  /** The escaping loop of serializeTreeConfigDirect: out gets v with every ';' and '\' escaped. */
  method AppendEscaped(str: string, v: string) returns (out: string)
    ensures out == str + Escape(v)
  {
    out := str;
    var c := 0;
    while c < |v|
      invariant c <= |v| && out + Escape(v[c..]) == str + Escape(v)
    {
      assert v[c..] == [v[c]] + v[c + 1..];
      if v[c] == ';' || v[c] == '\\' {
        out := out + "\\";
      }
      out := out + [v[c]];
      c := c + 1;
    }
    assert v[c..] == [];
  }

  /** The pieces the values loop appends for one value make up its text. */
  lemma AppendEntryText(out: string, e: Entry, indentation: nat)
    ensures out + "\n" + Tabs(indentation) + e.key + " = " + Escape(e.value) + ";" == out + EntryText(e, indentation)
  {
  }

  /** Appending the pieces of a body one by one appends the body. */
  lemma BodyAssembled(x: string, t: Node, indentation: nat)
    ensures x + EntriesText(t.values, indentation + 1) + (if |t.values| > 0 then "\n" else "")
            + ChildrenText(t, indentation + 1, 0) + Tabs(indentation) + "}\n"
         == x + Body(t, indentation)
  {
    var e, nl, c, tabs := EntriesText(t.values, indentation + 1), (if |t.values| > 0 then "\n" else ""),
                          ChildrenText(t, indentation + 1, 0), Tabs(indentation);
    Assoc(x, e, nl);
    Assoc(x, e + nl, c);
    Assoc(x, e + nl + c, tabs);
    Assoc(x, e + nl + c + tabs, "}\n");
  }

  /** The pieces serializeTreeConfigDirect appends one after the other make up the text of the node. */
  lemma SerializeAssembled(str: string, t: Node, indentation: nat, hasParent: bool, head: string, out: string)
    requires head == str + "\n" + Tabs(indentation) + (if hasParent then t.name + " " else "") + "{"
    requires out == head + EntriesText(t.values, indentation + 1) + (if |t.values| > 0 then "\n" else "")
                    + ChildrenText(t, indentation + 1, 0) + Tabs(indentation) + "}\n"
    ensures out == str + Serialize(t, indentation, hasParent)
  {
    var title := if hasParent then t.name + " " else "";
    BodyAssembled(head, t, indentation);
    Assoc(str, "\n", Tabs(indentation));
    Assoc(str, "\n" + Tabs(indentation), title);
    Assoc(str, "\n" + Tabs(indentation) + title, "{");
    Assoc(str, "\n" + Tabs(indentation) + title + "{", Body(t, indentation));
  }

  /** The values loop of serializeTreeConfigDirect: every value on a line of its own, escaped. */
  method AppendEntries(str: string, values: Entries, indentation: nat) returns (out: string)
    ensures out == str + EntriesText(values, indentation)
  {
    out := str;
    var k := 0;
    while k < |values|
      invariant k <= |values|
      invariant out + EntriesText(values[k..], indentation) == str + EntriesText(values, indentation)
    {
      assert values[k..][1..] == values[k + 1..];
      ghost var before := out;
      out := out + "\n" + Tabs(indentation) + values[k].key + " = ";
      out := AppendEscaped(out, values[k].value);
      out := out + ";";
      AppendEntryText(before, values[k], indentation);
      Assoc(before, EntryText(values[k], indentation), EntriesText(values[k + 1..], indentation));
      k := k + 1;
    }
    assert out + [] == out && values[k..] == [];
  }

  /**
   * serializeTreeConfigDirect: appends node t at the given indentation to
   * str. hasParent stands for node.parent() != nullptr; every child has one.
   */
  method SerializeTreeConfigDirect(str: string, t: Node, indentation: nat, hasParent: bool) returns (out: string)
    ensures out == str + Serialize(t, indentation, hasParent)
    decreases t
  {
    var title := if hasParent then t.name + " " else "";
    out := str + "\n" + Tabs(indentation) + title + "{";
    ghost var head := out;
    out := AppendEntries(out, t.values, indentation + 1);
    if |t.values| > 0 {
      out := out + "\n";
    }
    ghost var middle := out;
    var m := 0;
    while m < |t.children|
      invariant m <= |t.children|
      invariant out + ChildrenText(t, indentation + 1, m) == middle + ChildrenText(t, indentation + 1, 0)
    {
      ghost var before := out;
      out := SerializeTreeConfigDirect(out, t.children[m], indentation + 1, true);
      Assoc(before, Serialize(t.children[m], indentation + 1, true), ChildrenText(t, indentation + 1, m + 1));
      m := m + 1;
    }
    assert out + [] == out;
    out := out + Tabs(indentation) + "}\n";
    SerializeAssembled(str, t, indentation, hasParent, head, out);
  }

  /** serializeTreeConfig: the text of t, starting from the empty string. */
  method SerializeTreeConfigFrom(t: Node, hasParent: bool) returns (str: string)
    ensures str == SerializeTreeConfig(t, hasParent)
  {
    str := SerializeTreeConfigDirect("", t, 0, hasParent);
    assert "" + SerializeTreeConfig(t, hasParent) == SerializeTreeConfig(t, hasParent);
  }
}
