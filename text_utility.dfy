/**
 * parseWords and insertCarriageReturns. The repository carries the same two
 * helpers twice, in the global namespace and in namespace pingstats, with
 * the same code; one model stands for both.
 *
 * A std::string is read through c_str(): one '\0' past the end, and an
 * embedded '\0' ends the text for the pointer loops.
 */
module TextUtility {

  /** std::isspace in the "C" locale: space, \t, \n, \v, \f and \r. */
  predicate IsSpace(c: char) {
    c == ' ' || '\t' <= c <= '\r'
  }

  /** The character at position i of c_str(): '\0' at and past the end. */
  function At(s: string, i: nat): char {
    if i < |s| then s[i] else '\0'
  }

  /** Where c_str() ends for a pointer loop: the first '\0', or the length. */
  function NulIndex(s: string): (n: nat)
    ensures n <= |s| && (n < |s| ==> s[n] == '\0')
    ensures forall i | 0 <= i < n :: s[i] != '\0'
  {
    if s == [] then 0
    else if s[0] == '\0' then 0
    else 1 + NulIndex(s[1..])
  }

  /** The text a pointer loop over c_str() sees. */
  function CString(s: string): string {
    s[..NulIndex(s)]
  }

  /** The length of the run of non-space characters that u starts with. */
  function WordLen(u: string): (k: nat)
    ensures k <= |u|
    ensures forall i | 0 <= i < k :: !IsSpace(u[i])
    ensures k < |u| ==> IsSpace(u[k])
  {
    if u == [] || IsSpace(u[0]) then 0 else 1 + WordLen(u[1..])
  }

  /** The maximal runs of non-space characters of u, in order. */
  function Words(u: string): seq<string>
    decreases |u|
  {
    if u == [] then []
    else if IsSpace(u[0]) then Words(u[1..])
    else [u[..WordLen(u)]] + Words(u[WordLen(u)..])
  }

  /** A word: non-empty and free of whitespace. */
  predicate IsWord(w: string) {
    |w| > 0 && forall i | 0 <= i < |w| :: !IsSpace(w[i])
  }

  /** A separator: whitespace only. */
  predicate IsBlank(w: string) {
    forall i | 0 <= i < |w| :: IsSpace(w[i])
  }

  function Concat(ws: seq<string>): string {
    if ws == [] then [] else ws[0] + Concat(ws[1..])
  }

  /** u without its whitespace. */
  function RemoveSpaces(u: string): string {
    if u == [] then [] else (if IsSpace(u[0]) then [] else [u[0]]) + RemoveSpaces(u[1..])
  }

  /** seps[0] + words[0] + seps[1] + ... + words[n-1] + seps[n]. */
  function Interleave(seps: seq<string>, words: seq<string>): string
    requires |seps| == |words| + 1
  {
    if words == [] then seps[0] else seps[0] + words[0] + Interleave(seps[1..], words[1..])
  }

  /** parseWords' skipSpaces: the position of the first non-space character from begin on. */
  method SkipSpaces(s: string, begin: nat) returns (p: nat)
    requires begin <= NulIndex(s)
    ensures begin <= p <= NulIndex(s) && !IsSpace(At(s, p))
    ensures forall i | begin <= i < p :: IsSpace(s[i])
  {
    p := begin;
    while IsSpace(At(s, p))
      invariant begin <= p <= NulIndex(s)
      invariant forall i | begin <= i < p :: IsSpace(s[i])
      decreases NulIndex(s) - p
    {
      p := p + 1;
    }
  }

  /** parseWords' skipNonSpaces: the position of the first whitespace or '\0' from begin on. */
  method SkipNonSpaces(s: string, begin: nat) returns (p: nat)
    requires begin <= NulIndex(s)
    ensures begin <= p <= NulIndex(s) && (p == NulIndex(s) || IsSpace(s[p]))
    ensures forall i | begin <= i < p :: !IsSpace(s[i])
  {
    p := begin;
    while At(s, p) != '\0' && !IsSpace(At(s, p))
      invariant begin <= p <= NulIndex(s)
      invariant forall i | begin <= i < p :: !IsSpace(s[i])
      decreases NulIndex(s) - p
    {
      p := p + 1;
    }
  }

  /**
   * parseWords: skip whitespace, take the run of characters up to the next
   * whitespace or '\0', and stop when that run is empty.
   */
  method ParseWords(source: string) returns (words: seq<string>)
    ensures words == Words(CString(source))
  {
    var n := NulIndex(source);
    words := [];
    var begin := 0;
    while true
      invariant 0 <= begin <= n
      invariant words + Words(CString(source)[begin..]) == Words(CString(source))
      decreases n - begin
    {
      var start := SkipSpaces(source, begin);
      var end := SkipNonSpaces(source, start);
      ParseStep(source, begin, start, end);
      if start != end {
        words := words + [source[start..end]];
        begin := end;
      } else {
        break;
      }
    }
  }

  /**
   * One round of parseWords from begin: whitespace up to start, then a run
   * of non-spaces up to end. A non-empty run is the next word; an empty one
   * means no word is left.
   */
  lemma ParseStep(source: string, begin: nat, start: nat, end: nat)
    requires begin <= start <= end <= NulIndex(source)
    requires forall i | begin <= i < start :: IsSpace(source[i])
    requires !IsSpace(At(source, start))
    requires forall i | start <= i < end :: !IsSpace(source[i])
    requires end == NulIndex(source) || IsSpace(source[end])
    ensures start < end ==> Words(CString(source)[begin..]) == [source[start..end]] + Words(CString(source)[end..])
    ensures start == end ==> Words(CString(source)[begin..]) == []
  {
    var text := CString(source);
    assert forall i | 0 <= i < |text| :: text[i] == source[i];
    WordsFrom(text, begin, start, end);
    assert text[start..end] == source[start..end] by {
      forall i | 0 <= i < end - start ensures text[start..end][i] == source[start..end][i] {
        assert text[start + i] == source[start + i];
      }
    }
  }

  /** ParseStep on the text itself. */
  lemma WordsFrom(u: string, begin: nat, start: nat, end: nat)
    requires begin <= start <= end <= |u|
    requires forall i | begin <= i < start :: IsSpace(u[i])
    requires start < |u| ==> !IsSpace(u[start])
    requires forall i | start <= i < end :: !IsSpace(u[i])
    requires end < |u| ==> IsSpace(u[end])
    ensures start < end ==> Words(u[begin..]) == [u[start..end]] + Words(u[end..])
    ensures start == end ==> Words(u[begin..]) == []
  {
    WordsAfterSpaces(u[begin..], start - begin);
    assert u[begin..][start - begin..] == u[start..];
    if start < end {
      var v := u[start..];
      assert forall i | 0 <= i < end - start :: v[i] == u[start + i];
      WordsAfterWord(v, end - start);
      assert v[..end - start] == u[start..end];
      assert v[end - start..] == u[end..];
    }
  }

  /** Leading whitespace adds no word. */
  lemma {:induction false} WordsAfterSpaces(u: string, k: nat)
    requires k <= |u| && forall i | 0 <= i < k :: IsSpace(u[i])
    ensures Words(u) == Words(u[k..])
  {
    if k > 0 {
      WordsAfterSpaces(u[1..], k - 1);
      assert u[1..][k - 1..] == u[k..];
    }
  }

  /** A leading run of k non-spaces that whitespace or the end follows is the first word. */
  lemma WordsAfterWord(u: string, k: nat)
    requires 0 < k <= |u| && (forall i | 0 <= i < k :: !IsSpace(u[i])) && (k < |u| ==> IsSpace(u[k]))
    ensures Words(u) == [u[..k]] + Words(u[k..])
  {
    WordLenIs(u, k);
  }

  /** WordLen is the length of any run of non-spaces that whitespace or the end follows. */
  lemma {:induction false} WordLenIs(u: string, k: nat)
    requires k <= |u| && (forall i | 0 <= i < k :: !IsSpace(u[i])) && (k < |u| ==> IsSpace(u[k]))
    ensures WordLen(u) == k
  {
    if k > 0 {
      WordLenIs(u[1..], k - 1);
    }
  }

  /** Every word found is non-empty and holds no whitespace. */
  lemma {:induction false} WordsAreWords(u: string)
    ensures forall w | w in Words(u) :: IsWord(w)
    decreases |u|
  {
    if u != [] {
      if IsSpace(u[0]) {
        WordsAreWords(u[1..]);
      } else {
        WordsAreWords(u[WordLen(u)..]);
      }
    }
  }

  /** Joining the words gives the text with its whitespace removed. */
  lemma {:induction false} ConcatWords(u: string)
    ensures Concat(Words(u)) == RemoveSpaces(u)
    decreases |u|
  {
    if u != [] {
      if IsSpace(u[0]) {
        ConcatWords(u[1..]);
      } else {
        var k := WordLen(u);
        ConcatWords(u[k..]);
        calc {
          Concat(Words(u));
          u[..k] + Concat(Words(u[k..]));
          u[..k] + RemoveSpaces(u[k..]);
          { RemoveSpacesOfWord(u, k); }
          RemoveSpaces(u);
        }
      }
    }
  }

  /** A leading run of k non-spaces passes through RemoveSpaces unchanged. */
  lemma {:induction false} RemoveSpacesOfWord(u: string, k: nat)
    requires k <= |u| && forall i | 0 <= i < k :: !IsSpace(u[i])
    ensures RemoveSpaces(u) == u[..k] + RemoveSpaces(u[k..])
  {
    if k > 0 {
      RemoveSpacesOfWord(u[1..], k - 1);
      assert u[1..][..k - 1] == u[1..k];
      assert u[1..][k - 1..] == u[k..];
      assert u[..k] == [u[0]] + u[1..k];
    }
  }

  /** No words exactly when the text is empty or all whitespace. */
  lemma {:induction false} NoWordsIffBlank(u: string)
    ensures Words(u) == [] <==> IsBlank(u)
    decreases |u|
  {
    if u != [] {
      NoWordsIffBlank(u[1..]);
      if IsSpace(u[0]) {
        assert IsBlank(u) <==> IsBlank(u[1..]) by {
          if IsBlank(u[1..]) {
            forall i | 0 <= i < |u| ensures IsSpace(u[i]) {
              if i > 0 { assert u[i] == u[1..][i - 1]; }
            }
          }
          if IsBlank(u) {
            forall i | 0 <= i < |u[1..]| ensures IsSpace(u[1..][i]) { assert u[1..][i] == u[i + 1]; }
          }
        }
      }
    }
  }

  /**
   * u is the words interleaved with whitespace-only separators, all of them
   * non-empty except the first and the last.
   */
  predicate SplitBy(u: string, seps: seq<string>) {
    |seps| == |Words(u)| + 1 && u == Interleave(seps, Words(u))
    && (forall i | 0 <= i < |seps| :: IsBlank(seps[i]))
    && (forall i | 0 < i < |seps| - 1 :: seps[i] != [])
  }

  /** The words are the maximal runs: some separators split the text around them. */
  lemma {:induction false} WordsSplitText(u: string) returns (seps: seq<string>)
    ensures SplitBy(u, seps)
    decreases |u|
  {
    if u == [] {
      seps := [[]];
    } else if IsSpace(u[0]) {
      var tail := WordsSplitText(u[1..]);
      seps := SplitAfterSpace(u, tail);
    } else {
      var tail := WordsSplitText(u[WordLen(u)..]);
      seps := SplitAfterWord(u, tail);
    }
  }

  /** A leading whitespace character joins the first separator. */
  lemma SplitAfterSpace(u: string, tail: seq<string>) returns (seps: seq<string>)
    requires u != [] && IsSpace(u[0]) && SplitBy(u[1..], tail)
    ensures SplitBy(u, seps)
  {
    seps := [[u[0]] + tail[0]] + tail[1..];
    assert Words(u) == Words(u[1..]);
    InterleavePrefixed([u[0]], tail, Words(u));
    assert u == [u[0]] + u[1..];
    BlankCons(u[0], tail[0]);
    assert forall i | 0 < i < |seps| :: seps[i] == tail[i];
  }

  /** Text put before the first separator comes first in the interleaving. */
  lemma InterleavePrefixed(c: string, seps: seq<string>, words: seq<string>)
    requires |seps| == |words| + 1
    ensures Interleave([c + seps[0]] + seps[1..], words) == c + Interleave(seps, words)
  {
    var seps' := [c + seps[0]] + seps[1..];
    assert seps'[0] == c + seps[0] && seps'[1..] == seps[1..];
    if words != [] {
      var rest := Interleave(seps[1..], words[1..]);
      assert Interleave(seps', words) == c + seps[0] + words[0] + rest;
      Assoc(c, seps[0], words[0]);
      Assoc(c, seps[0] + words[0], rest);
    }
  }

  /** Whitespace before a blank string is blank. */
  lemma BlankCons(c: char, w: string)
    requires IsSpace(c) && IsBlank(w)
    ensures IsBlank([c] + w)
  {
    forall j | 0 < j < |[c] + w| ensures IsSpace(([c] + w)[j]) {
      assert ([c] + w)[j] == w[j - 1];
    }
  }

  /** A leading word comes after an empty first separator. */
  lemma SplitAfterWord(u: string, tail: seq<string>) returns (seps: seq<string>)
    requires u != [] && !IsSpace(u[0]) && SplitBy(u[WordLen(u)..], tail)
    ensures SplitBy(u, seps)
  {
    var k := WordLen(u);
    seps := [[]] + tail;
    assert Words(u) == [u[..k]] + Words(u[k..]);
    assert Words(u)[1..] == Words(u[k..]);
    assert seps[1..] == tail;
    assert u == u[..k] + u[k..];
    if k < |u| && Words(u[k..]) != [] {
      // the text after the word starts with whitespace, which the first separator holds
      assert IsSpace(u[k]);
      SeparatorHoldsLeadingSpace(u[k..], tail);
    }
  }

  /** When words follow, a text that starts with whitespace has a non-empty first separator. */
  lemma SeparatorHoldsLeadingSpace(v: string, seps: seq<string>)
    requires v != [] && IsSpace(v[0]) && Words(v) != []
    requires |seps| == |Words(v)| + 1 && v == Interleave(seps, Words(v))
    ensures seps[0] != []
  {
    WordsAreWords(v);
    assert Words(v)[0] in Words(v);
  }

  // ---------------------------------------------------------------------------
  // insertCarriageReturns

  /** The number of c in s. */
  function Count(s: string, c: char): nat {
    if s == [] then 0 else (if s[0] == c then 1 else 0) + Count(s[1..], c)
  }

  /** Every '\n' becomes "\r\n"; everything else is copied. */
  function WithCarriageReturns(s: string): string {
    if s == [] then [] else (if s[0] == '\n' then "\r\n" else [s[0]]) + WithCarriageReturns(s[1..])
  }

  /** Drops every '\r' that is immediately followed by '\n'. */
  function DropCarriageReturns(t: string): string {
    if t == [] then []
    else if |t| >= 2 && t[0] == '\r' && t[1] == '\n' then DropCarriageReturns(t[1..])
    else [t[0]] + DropCarriageReturns(t[1..])
  }

  /**
   * insertCarriageReturns: a buffer of size |str| plus the number of '\n' is
   * filled with two indices, i over the input and j over the output.
   */
  method InsertCarriageReturns(str: string) returns (ret: string)
    ensures ret == WithCarriageReturns(str)
  {
    var buf := new char[|str| + Count(str, '\n')](_ => '\0');
    var i, j := 0, 0;
    while i < |str|
      invariant 0 <= i <= |str| && j == i + Count(str[..i], '\n')
      invariant buf.Length == |str| + Count(str, '\n') && j <= buf.Length
      invariant buf[..j] == WithCarriageReturns(str[..i])
      modifies buf
    {
      CountAppend(str, i);
      PrefixExtends(str, i);
      if str[i] == '\n' {
        buf[j] := '\r';
        j := j + 1;
      }
      buf[j] := str[i];
      assert buf[..j + 1] == buf[..j] + [str[i]];
      i, j := i + 1, j + 1;
    }
    assert str[..i] == str;
    ret := buf[..];
  }

  /** Splitting the input at i splits the count of '\n'. */
  lemma {:induction false} CountAppend(s: string, i: nat)
    requires i <= |s|
    ensures Count(s, '\n') == Count(s[..i], '\n') + Count(s[i..], '\n')
    ensures i < |s| ==> Count(s[..i + 1], '\n') == Count(s[..i], '\n') + (if s[i] == '\n' then 1 else 0)
    ensures i < |s| ==> Count(s[i..], '\n') == (if s[i] == '\n' then 1 else 0) + Count(s[i + 1..], '\n')
  {
    CountConcat(s[..i], s[i..]);
    assert s[..i] + s[i..] == s;
    if i < |s| {
      CountConcat(s[..i], [s[i]]);
      assert s[..i + 1] == s[..i] + [s[i]];
      assert s[i..][1..] == s[i + 1..];
    }
  }

  lemma {:induction false} CountConcat(a: string, b: string)
    ensures Count(a + b, '\n') == Count(a, '\n') + Count(b, '\n')
  {
    if a == [] {
      assert a + b == b;
    } else {
      assert (a + b)[1..] == a[1..] + b;
      CountConcat(a[1..], b);
    }
  }

  /** The output for the first i + 1 characters extends that for the first i. */
  lemma {:induction false} PrefixExtends(s: string, i: nat)
    requires i < |s|
    ensures WithCarriageReturns(s[..i + 1])
            == WithCarriageReturns(s[..i]) + (if s[i] == '\n' then "\r\n" else [s[i]])
  {
    assert s[..i + 1] == s[..i] + [s[i]];
    WithCarriageReturnsConcat(s[..i], [s[i]]);
  }

  lemma {:induction false} WithCarriageReturnsConcat(a: string, b: string)
    ensures WithCarriageReturns(a + b) == WithCarriageReturns(a) + WithCarriageReturns(b)
  {
    if a == [] {
      assert a + b == b;
    } else {
      assert (a + b)[1..] == a[1..] + b;
      WithCarriageReturnsConcat(a[1..], b);
    }
  }

  /** The output is one character longer than the input for each '\n'. */
  lemma {:induction false} OutputLength(s: string)
    ensures |WithCarriageReturns(s)| == |s| + Count(s, '\n')
  {
    if s != [] {
      OutputLength(s[1..]);
    }
  }

  /** Every '\n' of t comes right after a '\r'. */
  predicate CarriageReturnBeforeNewline(t: string) {
    forall i | 0 <= i < |t| && t[i] == '\n' :: i > 0 && t[i - 1] == '\r'
  }

  /** Every '\n' of the output comes right after a '\r'. */
  lemma {:induction false} NewlinesFollowCarriageReturns(s: string)
    ensures CarriageReturnBeforeNewline(WithCarriageReturns(s))
  {
    if s != [] {
      NewlinesFollowCarriageReturns(s[1..]);
      NoLeadingNewline(s[1..]);
      var head := if s[0] == '\n' then "\r\n" else [s[0]];
      assert CarriageReturnBeforeNewline(head);
      ConcatKeepsCarriageReturns(head, WithCarriageReturns(s[1..]));
    }
  }

  lemma ConcatKeepsCarriageReturns(a: string, b: string)
    requires CarriageReturnBeforeNewline(a) && CarriageReturnBeforeNewline(b)
    requires b != [] ==> b[0] != '\n'
    ensures CarriageReturnBeforeNewline(a + b)
  {
    var t := a + b;
    forall i | 0 <= i < |t| && t[i] == '\n' ensures i > 0 && t[i - 1] == '\r' {
      if i < |a| {
        assert t[i] == a[i];
      } else {
        assert t[i] == b[i - |a|];
        if i > |a| {
          assert t[i - 1] == b[i - |a| - 1];
        }
      }
    }
  }

  /** The output never starts with '\n'. */
  lemma NoLeadingNewline(s: string)
    ensures WithCarriageReturns(s) != [] ==> WithCarriageReturns(s)[0] != '\n'
  {
  }

  /** Removing the inserted '\r' characters gives back the input; an existing "\r\n" becomes "\r\r\n" and comes back. */
  lemma {:induction false} DropInvertsInsert(s: string)
    ensures DropCarriageReturns(WithCarriageReturns(s)) == s
  {
    if s != [] {
      DropInvertsInsert(s[1..]);
      var rest := WithCarriageReturns(s[1..]);
      NoLeadingNewline(s[1..]);
      if s[0] == '\n' {
        assert WithCarriageReturns(s) == ['\r'] + (['\n'] + rest);
        assert (['\r'] + (['\n'] + rest))[1..] == ['\n'] + rest;
        assert (['\n'] + rest)[1..] == rest;
      } else {
        assert WithCarriageReturns(s) == [s[0]] + rest;
        assert ([s[0]] + rest)[1..] == rest;
      }
      assert s == [s[0]] + s[1..];
    }
  }

  // ---------------------------------------------------------------------------
  // Positions in a C string, shared by the two config parsers

  /** A piece of text read from position pos on, and where the reading stopped. */
  datatype Scanned = Scanned(text: string, pos: nat)

  /** skipSpaces: the first position from i on that does not hold whitespace. */
  function SpacesEnd(s: string, i: nat): (j: nat)
    requires i <= |s|
    ensures i <= j <= |s|
    decreases |s| - i
  {
    if i < |s| && IsSpace(s[i]) then SpacesEnd(s, i + 1) else i
  }

  /** n tab characters: the indentation the config serialisers write. */
  function Tabs(n: nat): string {
    seq(n, _ => '\t')
  }

  /** Appending b and then c appends b + c. */
  lemma Assoc(a: string, b: string, c: string)
    ensures a + (b + c) == (a + b) + c
  {
  }

  /** s holds x at position i. */
  predicate Has(s: string, i: nat, x: string) {
    i + |x| <= |s| && s[i..i + |x|] == x
  }

  lemma HasConcat(s: string, i: nat, x: string, y: string)
    ensures Has(s, i, x + y) <==> Has(s, i, x) && Has(s, i + |x|, y)
  {
    if Has(s, i, x) && Has(s, i + |x|, y) {
      assert s[i..i + |x + y|] == s[i..i + |x|] + s[i + |x|..i + |x| + |y|];
    }
    if Has(s, i, x + y) {
      assert s[i..i + |x|] == (x + y)[..|x|];
      assert s[i + |x|..i + |x| + |y|] == (x + y)[|x|..];
    }
  }

  /** The front part of what s holds at i. */
  lemma HasLeft(s: string, i: nat, x: string, y: string)
    requires Has(s, i, x + y)
    ensures Has(s, i, x)
  {
    HasConcat(s, i, x, y);
  }

  /** The back part of what s holds at i, which starts at m. */
  lemma HasRight(s: string, i: nat, x: string, y: string, m: nat)
    requires Has(s, i, x + y) && m == i + |x|
    ensures Has(s, m, y)
  {
    HasConcat(s, i, x, y);
  }

  /** Three pieces one after the other: each is where the lengths of those before it say. */
  lemma Split3(s: string, i: nat, a: string, b: string, c: string, i1: nat, i2: nat)
    requires Has(s, i, a + b + c) && i1 == i + |a| && i2 == i1 + |b|
    ensures Has(s, i, a) && Has(s, i1, b) && Has(s, i2, c)
  {
    HasConcat(s, i, a + b, c);
    HasConcat(s, i, a, b);
  }

  /** Four pieces one after the other: each is where the lengths of those before it say. */
  lemma Split4(s: string, i: nat, a: string, b: string, c: string, d: string, i1: nat, i2: nat, i3: nat)
    requires Has(s, i, a + b + c + d) && i1 == i + |a| && i2 == i1 + |b| && i3 == i2 + |c|
    ensures Has(s, i, a) && Has(s, i1, b) && Has(s, i2, c) && Has(s, i3, d)
  {
    HasConcat(s, i, a + b + c, d);
    HasConcat(s, i, a + b, c);
    HasConcat(s, i, a, b);
  }

  /** Five pieces one after the other: each is where the lengths of those before it say. */
  lemma Split5(s: string, i: nat, a: string, b: string, c: string, d: string, e: string, i1: nat, i2: nat, i3: nat, i4: nat)
    requires Has(s, i, a + b + c + d + e) && i1 == i + |a| && i2 == i1 + |b| && i3 == i2 + |c| && i4 == i3 + |d|
    ensures Has(s, i, a) && Has(s, i1, b) && Has(s, i2, c) && Has(s, i3, d) && Has(s, i4, e)
  {
    HasConcat(s, i, a + b + c + d, e);
    Split4(s, i, a, b, c, d, i1, i2, i3);
  }

  /** A character of s is the one-character string s holds there. */
  lemma HasChar(s: string, k: nat, c: char)
    requires k < |s| && s[k] == c
    ensures Has(s, k, [c])
  {
    assert s[k..k + 1] == [c];
  }

  lemma HasAt(s: string, i: nat, x: string, k: nat)
    requires Has(s, i, x) && k < |x|
    ensures s[i + k] == x[k]
  {
    assert s[i..i + |x|][k] == s[i + k];
  }

  /** Whitespace w before a non-space character: skipSpaces stops right after w. */
  lemma {:induction false} SpacesEndAfter(s: string, i: nat, w: string)
    requires Has(s, i, w) && forall k | 0 <= k < |w| :: IsSpace(w[k])
    requires !IsSpace(At(s, i + |w|))
    ensures SpacesEnd(s, i) == i + |w|
    decreases |w|
  {
    if w != [] {
      HasAt(s, i, w, 0);
      HasConcat(s, i, w[..1], w[1..]);
      assert w == w[..1] + w[1..];
      SpacesEndAfter(s, i + 1, w[1..]);
    }
  }

  /** skipSpaces passes only whitespace and stops on the first other character. */
  lemma {:induction false} SpacesEndStops(s: string, i: nat)
    requires i <= |s|
    ensures !IsSpace(At(s, SpacesEnd(s, i)))
    ensures forall k | i <= k < SpacesEnd(s, i) :: IsSpace(s[k])
    decreases |s| - i
  {
    if i < |s| && IsSpace(s[i]) {
      SpacesEndStops(s, i + 1);
    }
  }

  /** The skipSpaces loop of the config parsers. */
  method SkipSpacesFrom(s: string, i: nat) returns (j: nat)
    requires i <= |s|
    ensures j == SpacesEnd(s, i)
  {
    j := i;
    while IsSpace(At(s, j))
      invariant i <= j <= |s| && SpacesEnd(s, j) == SpacesEnd(s, i)
      decreases |s| - j
    {
      j := j + 1;
    }
  }
}
