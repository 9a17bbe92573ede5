/**
 * PropertyNode::parseDirect and PropertyNode::save as the loops they are
 * (utility/property_node.hpp). The parser moves a position through the
 * text where the source moves its const char*&; save appends to a string
 * where the source writes to a stream. Each method is proved to compute
 * the function of module PropertyTree that specifies it, so the round trip
 * proved there holds for the loops too.
 */
module PropertyTreeText {
  import opened Wrappers
  import opened TextUtility
  import opened OrderedMap
  import opened PropertyTree

  /** skipIdents. */
  method SkipIdents(s: string, i: nat) returns (j: nat)
    requires i <= |s|
    ensures j == IdentsEnd(s, i)
  {
    j := i;
    while IsIdent(At(s, j))
      invariant i <= j <= |s| && IdentsEnd(s, j) == IdentsEnd(s, i)
      decreases |s| - j
    {
      j := j + 1;
    }
  }

  /** skipUntil. */
  method SkipUntil(s: string, i: nat, until: char) returns (j: nat)
    requires i <= |s|
    ensures j == UntilEnd(s, i, until)
  {
    j := i;
    while At(s, j) != '\0' && At(s, j) != until
      invariant i <= j <= |s| && UntilEnd(s, j, until) == UntilEnd(s, i, until)
      decreases |s| - j
    {
      j := j + 1;
    }
  }

  /** An entry `name = value` that no ';' ends: the parse fails where the value stops. */
  lemma ValueFails(s: string, b: nat, name: Scanned, node: Node, value: Scanned)
    requires b <= |s| && ParseName(s, b) == name && At(s, name.pos) == '='
    requires ParseValue(s, name.pos + 1) == value && At(s, value.pos) != ';'
    ensures EntryAt(s, b, node) == Parsed(false, node, value.pos)
  {
  }

  /** A child block that no '}' ends: the parse fails where the child stopped. */
  lemma ChildFails(s: string, b: nat, name: Scanned, node: Node, child: Parsed)
    requires b <= |s| && ParseName(s, b) == name && At(s, name.pos) == '{'
    requires ParseDirect(s, name.pos + 1, Node(name.text, [], [])) == child && At(s, child.pos) != '}'
    ensures EntryAt(s, b, node) == Parsed(false, node, child.pos)
  {
  }

  /** A name followed by neither '=' nor '{': the parse fails after the name. */
  lemma OtherFails(s: string, b: nat, name: Scanned, node: Node)
    requires b <= |s| && ParseName(s, b) == name && At(s, name.pos) != '=' && At(s, name.pos) != '{'
    ensures EntryAt(s, b, node) == Parsed(false, node, name.pos)
  {
  }

  /** The name that starts at b: skipIdents, then skipSpaces after it. */
  method ParseNameFrom(s: string, b: nat) returns (nameEnd: nat, j: nat)
    requires b <= |s|
    ensures b <= nameEnd <= j <= |s| && ParseName(s, b) == Scanned(s[b..nameEnd], j)
  {
    nameEnd := SkipIdents(s, b);
    j := SkipSpacesFrom(s, nameEnd);
  }

  /** The value after the '=' at j - 1: skipSpaces, then skipUntil the ';'. */
  method ParseValueFrom(s: string, j: nat) returns (valueBegin: nat, valueEnd: nat)
    requires j <= |s|
    ensures j <= valueBegin <= valueEnd <= |s| && ParseValue(s, j) == Scanned(s[valueBegin..valueEnd], valueEnd)
  {
    valueBegin := SkipSpacesFrom(s, j);
    valueEnd := SkipUntil(s, valueBegin, ';');
  }

  /**
   * parseDirect from position i into node: the answer, the node as the
   * loop left it and where the pointer stopped.
   */
  method ParseDirectFrom(s: string, i: nat, node: Node) returns (r: Parsed)
    requires i <= |s|
    ensures r == ParseDirect(s, i, node)
    decreases |s| - i, 1, 0
  {
    var j := i;
    var cur := node;
    while true
      invariant i <= j <= |s| && ParseDirect(s, j, cur) == ParseDirect(s, i, node)
      decreases |s| - j
    {
      ghost var start := j;
      j := SkipSpacesFrom(s, j);
      if At(s, j) == '\0' || At(s, j) == '}' {
        return Parsed(true, cur, j);
      }
      Enter(s, start, cur);
      var more, k, next := ParseEntryFrom(s, j, cur);
      if !more {
        return Parsed(false, next, k);
      }
      j, cur := k, next;
    }
  }

  /**
   * One pass of the loop of parseDirect, from the name that starts at b:
   * either the loop goes on at k with next, or parseDirect answers false
   * with the pointer at k.
   */
  method ParseEntryFrom(s: string, b: nat, cur: Node) returns (more: bool, k: nat, next: Node)
    requires b <= |s|
    ensures more ==> b < k <= |s| && EntryAt(s, b, cur) == ParseDirect(s, k, next)
    ensures !more ==> EntryAt(s, b, cur) == Parsed(false, next, k)
    decreases |s| - b, 0, 1
  {
    var nameEnd, j := ParseNameFrom(s, b);
    if At(s, j) == '=' {
      more, k, next := ParseAssignmentFrom(s, b, nameEnd, j, cur);
    } else if At(s, j) == '{' {
      more, k, next := ParseChildFrom(s, b, nameEnd, j, cur);
    } else {
      OtherFails(s, b, Scanned(s[b..nameEnd], j), cur);
      return false, j, cur;
    }
  }

  /**
   * The '=' branch of the loop: a value that a ';' ends is assigned to the
   * name and the loop goes on after the ';'.
   */
  method ParseAssignmentFrom(s: string, b: nat, nameEnd: nat, j: nat, cur: Node) returns (more: bool, k: nat, next: Node)
    requires b <= nameEnd <= j < |s| && ParseName(s, b) == Scanned(s[b..nameEnd], j) && s[j] == '='
    ensures more ==> b < k <= |s| && EntryAt(s, b, cur) == ParseDirect(s, k, next)
    ensures !more ==> EntryAt(s, b, cur) == Parsed(false, next, k)
  {
    var valueBegin, valueEnd := ParseValueFrom(s, j + 1);
    if At(s, valueEnd) == ';' {
      next := cur.(values := Assign(cur.values, s[b..nameEnd], s[valueBegin..valueEnd]));
      ValueStep(s, b, Scanned(s[b..nameEnd], j), cur, Scanned(s[valueBegin..valueEnd], valueEnd), valueEnd + 1, next);
      return true, valueEnd + 1, next;
    }
    // The pointer is on the terminating '\0', so the test for '{' that
    // the source falls through to fails as well.
    ValueFails(s, b, Scanned(s[b..nameEnd], j), cur, Scanned(s[valueBegin..valueEnd], valueEnd));
    return false, valueEnd, cur;
  }

  /**
   * The '{' branch of the loop: the child is parsed, and when it stops on
   * a '}' it is appended and the loop goes on after the '}'.
   */
  method ParseChildFrom(s: string, b: nat, nameEnd: nat, j: nat, cur: Node) returns (more: bool, k: nat, next: Node)
    requires b <= nameEnd <= j < |s| && ParseName(s, b) == Scanned(s[b..nameEnd], j) && s[j] == '{'
    ensures more ==> b < k <= |s| && EntryAt(s, b, cur) == ParseDirect(s, k, next)
    ensures !more ==> EntryAt(s, b, cur) == Parsed(false, next, k)
    decreases |s| - b, 0, 0
  {
    var child := ParseDirectFrom(s, j + 1, Node(s[b..nameEnd], [], []));
    if At(s, child.pos) == '}' {
      next := cur.(children := cur.children + [child.node]);
      ChildStep(s, b, Scanned(s[b..nameEnd], j), cur, child, child.pos + 1, next);
      return true, child.pos + 1, next;
    }
    ChildFails(s, b, Scanned(s[b..nameEnd], j), cur, child);
    return false, child.pos, cur;
  }

  /** parse(const char*): a null pointer parses as nothing, anything else from its start. */
  method ParseFrom(s: Option<string>, node: Node) returns (r: Parsed)
    ensures r == Parse(s, node)
  {
    if s.None? {
      return Parsed(true, node, 0);
    }
    r := ParseDirectFrom(s.value, 0, node);
  }

  /** The pieces the values loop appends for one value make up its text. */
  lemma AppendValueText(out: string, e: Entry, indentation: nat)
    ensures out + Tabs(indentation) + e.key + " = " + e.value + ";\n" == out + ValueText(e, indentation)
  {
  }

  /** Appending the pieces of the contents one by one appends the contents. */
  lemma ContentsAssembled(x: string, t: Node, indentation: nat)
    ensures x + ValuesText(t.values, indentation) + (if |t.children| > 0 then Tabs(indentation) + "\n" else "")
            + ChildrenText(t, indentation, 0)
         == x + Contents(t, indentation)
  {
    var v, b, c := ValuesText(t.values, indentation), (if |t.children| > 0 then Tabs(indentation) + "\n" else ""),
                   ChildrenText(t, indentation, 0);
    Assoc(x, v, b);
    Assoc(x, v + b, c);
  }

  /** The pieces save appends for a node with a parent make up its saved text. */
  lemma FramedAssembled(str: string, t: Node, indentation: nat, out: string)
    requires out == str + Tabs(indentation) + t.name + " {\n" + Contents(t, indentation + 1)
                    + Tabs(indentation) + "}\n" + Tabs(indentation) + "\n"
    ensures out == str + Save(t, indentation, true)
  {
    var a, c := Tabs(indentation) + t.name + " {\n", Contents(t, indentation + 1);
    var close, tail := Tabs(indentation) + "}", "\n" + Tabs(indentation) + "\n";
    Assoc(str, Tabs(indentation), t.name);
    Assoc(str, Tabs(indentation) + t.name, " {\n");
    Assoc(str, a, c);
    Assoc(str + a + c, Tabs(indentation), "}\n");
    assert Tabs(indentation) + "}\n" + Tabs(indentation) + "\n" == close + tail;
    Assoc(str + a + c, Tabs(indentation) + "}\n", Tabs(indentation));
    Assoc(str + a + c, Tabs(indentation) + "}\n" + Tabs(indentation), "\n");
    Assoc(str + a + c, close, tail);
    Assoc(str, a + c, close + tail);
    Assoc(str, a + c + close, tail);
    Assoc(str, a + c, close);
  }

  /** The contents of t: the values loop, the blank line, the children loop. */
  method SaveContents(str: string, t: Node, indentation: nat) returns (out: string)
    ensures out == str + Contents(t, indentation)
    decreases t, 1
  {
    out := str;
    var k := 0;
    while k < |t.values|
      invariant k <= |t.values|
      invariant out + ValuesText(t.values[k..], indentation) == str + ValuesText(t.values, indentation)
    {
      assert t.values[k..][1..] == t.values[k + 1..];
      ghost var before := out;
      out := out + Tabs(indentation) + t.values[k].key + " = " + t.values[k].value + ";\n";
      AppendValueText(before, t.values[k], indentation);
      Assoc(before, ValueText(t.values[k], indentation), ValuesText(t.values[k + 1..], indentation));
      k := k + 1;
    }
    assert out + [] == out && t.values[k..] == [];
    if |t.children| > 0 {
      out := out + (Tabs(indentation) + "\n");
    }
    ghost var middle := out;
    var m := 0;
    while m < |t.children|
      invariant m <= |t.children|
      invariant out + ChildrenText(t, indentation, m) == middle + ChildrenText(t, indentation, 0)
    {
      ghost var before := out;
      out := SaveDirect(out, t.children[m], indentation, true);
      Assoc(before, Save(t.children[m], indentation, true), ChildrenText(t, indentation, m + 1));
      m := m + 1;
    }
    assert out + [] == out;
    ContentsAssembled(str, t, indentation);
  }

  /**
   * save at the given indentation, appended to str. hasParent stands for
   * parent() != nullptr; every child has one.
   */
  method SaveDirect(str: string, t: Node, indentation: nat, hasParent: bool) returns (out: string)
    ensures out == str + Save(t, indentation, hasParent)
    decreases t, 2
  {
    if !hasParent {
      out := SaveContents(str, t, indentation);
      return;
    }
    out := str + Tabs(indentation) + t.name + " {\n";
    ghost var head := out;
    out := SaveContents(out, t, indentation + 1);
    out := out + Tabs(indentation) + "}\n";
    out := out + Tabs(indentation) + "\n";
    FramedAssembled(str, t, indentation, out);
  }

  /** save of a root node into an empty stream. */
  method SaveFrom(t: Node) returns (str: string)
    ensures str == Save(t, 0, false)
  {
    str := SaveDirect("", t, 0, false);
    assert "" + Save(t, 0, false) == Save(t, 0, false);
  }
}
