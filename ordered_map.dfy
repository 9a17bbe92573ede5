/**
 * std::map<std::string, std::string> as both config trees use it: a list
 * of entries strictly sorted by key, in the order of std::string's
 * operator< (lexicographic on character codes, a proper prefix first).
 * Iterating the map visits the entries in this order.
 */
module OrderedMap {
  import opened Wrappers

  datatype Entry = Entry(key: string, value: string)

  type Entries = seq<Entry>

  /** std::string's operator<. */
  predicate Less(a: string, b: string) {
    if b == [] then false
    else if a == [] then true
    else a[0] < b[0] || (a[0] == b[0] && Less(a[1..], b[1..]))
  }

  lemma {:induction false} LessIrreflexive(a: string)
    ensures !Less(a, a)
  {
    if a != [] {
      LessIrreflexive(a[1..]);
    }
  }

  lemma {:induction false} LessTransitive(a: string, b: string, c: string)
    requires Less(a, b) && Less(b, c)
    ensures Less(a, c)
  {
    if a != [] && a[0] == b[0] && b[0] == c[0] {
      LessTransitive(a[1..], b[1..], c[1..]);
    }
  }

  /** Any two different strings are ordered one way or the other, and only one way. */
  lemma {:induction false} LessTotal(a: string, b: string)
    ensures a != b <==> Less(a, b) || Less(b, a)
    ensures !(Less(a, b) && Less(b, a))
  {
    if a != [] && b != [] && a[0] == b[0] {
      LessTotal(a[1..], b[1..]);
      if a[1..] == b[1..] {
        assert a == [a[0]] + a[1..] && b == [b[0]] + b[1..];
      }
    } else if a != [] && b != [] {
    } else if a == [] && b == [] {
    }
  }

  function Keys(m: Entries): set<string> {
    set e | e in m :: e.key
  }

  /** Keys strictly increase along the list, so no key occurs twice. */
  predicate Sorted(m: Entries) {
    forall i, j | 0 <= i < j < |m| :: Less(m[i].key, m[j].key)
  }

  /** A sorted list is a first entry below every later key, then a sorted list. */
  lemma SortedCons(e: Entry, t: Entries)
    ensures Sorted([e] + t) <==> (forall k | k in Keys(t) :: Less(e.key, k)) && Sorted(t)
  {
    var m := [e] + t;
    if Sorted(m) {
      forall k | k in Keys(t) ensures Less(e.key, k) {
        var x :| x in t && x.key == k;
        var j :| 0 <= j < |t| && t[j] == x;
        assert m[0] == e && m[j + 1] == x;
        assert Less(m[0].key, m[j + 1].key);
      }
      forall i, j | 0 <= i < j < |t| ensures Less(t[i].key, t[j].key) {
        assert m[i + 1] == t[i] && m[j + 1] == t[j];
      }
    }
    if (forall k | k in Keys(t) :: Less(e.key, k)) && Sorted(t) {
      forall i, j | 0 <= i < j < |m| ensures Less(m[i].key, m[j].key) {
        if i == 0 {
          assert m[0] == e && m[j] == t[j - 1];
          assert t[j - 1] in t;
          assert m[j].key in Keys(t);
        } else {
          assert m[i] == t[i - 1] && m[j] == t[j - 1];
        }
      }
    }
  }

  /** map::find: the value stored under k. */
  function Find(m: Entries, k: string): (r: Option<string>)
    ensures r.None? <==> k !in Keys(m)
    ensures r.Some? ==> Entry(k, r.value) in m
  {
    if m == [] then None
    else if m[0].key == k then Some(m[0].value)
    else
      assert Keys(m) == {m[0].key} + Keys(m[1..]) by {
        assert m == [m[0]] + m[1..];
      }
      Find(m[1..], k)
  }

  /** map::insert: adds k with v unless k is present, in which case nothing changes. */
  function Insert(m: Entries, k: string, v: string): Entries {
    if m == [] then [Entry(k, v)]
    else if m[0].key == k then m
    else if Less(k, m[0].key) then [Entry(k, v)] + m
    else [m[0]] + Insert(m[1..], k, v)
  }

  /** map::operator[] followed by assignment: k maps to v afterwards, whatever it mapped to before. */
  function Assign(m: Entries, k: string, v: string): Entries {
    if m == [] then [Entry(k, v)]
    else if m[0].key == k then [Entry(k, v)] + m[1..]
    else if Less(k, m[0].key) then [Entry(k, v)] + m
    else [m[0]] + Assign(m[1..], k, v)
  }

  lemma KeysCons(e: Entry, t: Entries)
    ensures Keys([e] + t) == {e.key} + Keys(t)
  {
    var m := [e] + t;
    forall k | k in Keys(m) ensures k in {e.key} + Keys(t) {
      var x :| x in m && x.key == k;
    }
    forall k | k in Keys(t) ensures k in Keys(m) {
      var x :| x in t && x.key == k;
      assert x in m;
    }
  }

  /** Insert keeps the map sorted and adds exactly the key k. */
  lemma {:induction false} InsertSorted(m: Entries, k: string, v: string)
    requires Sorted(m)
    ensures Keys(Insert(m, k, v)) == Keys(m) + {k} && Sorted(Insert(m, k, v))
  {
    if m == [] {
      assert Keys([Entry(k, v)]) == {k} by { KeysCons(Entry(k, v), []); }
    } else {
      assert m == [m[0]] + m[1..];
      KeysCons(m[0], m[1..]);
      SortedCons(m[0], m[1..]);
      if m[0].key != k && Less(k, m[0].key) {
        KeysCons(Entry(k, v), m);
        forall x | x in Keys(m) ensures Less(k, x) {
          if x != m[0].key {
            LessTransitive(k, m[0].key, x);
          }
        }
        SortedCons(Entry(k, v), m);
      } else if m[0].key != k {
        LessTotal(k, m[0].key);
        InsertSorted(m[1..], k, v);
        KeysCons(m[0], Insert(m[1..], k, v));
        SortedCons(m[0], Insert(m[1..], k, v));
      }
    }
  }

  /** Assign keeps the map sorted and adds exactly the key k. */
  lemma {:induction false} AssignSorted(m: Entries, k: string, v: string)
    requires Sorted(m)
    ensures Keys(Assign(m, k, v)) == Keys(m) + {k} && Sorted(Assign(m, k, v))
  {
    if m == [] {
      assert Keys([Entry(k, v)]) == {k} by { KeysCons(Entry(k, v), []); }
    } else {
      assert m == [m[0]] + m[1..];
      KeysCons(m[0], m[1..]);
      SortedCons(m[0], m[1..]);
      if m[0].key == k {
        KeysCons(Entry(k, v), m[1..]);
        SortedCons(Entry(k, v), m[1..]);
      } else if Less(k, m[0].key) {
        KeysCons(Entry(k, v), m);
        forall x | x in Keys(m) ensures Less(k, x) {
          if x != m[0].key {
            LessTransitive(k, m[0].key, x);
          }
        }
        SortedCons(Entry(k, v), m);
      } else {
        LessTotal(k, m[0].key);
        AssignSorted(m[1..], k, v);
        KeysCons(m[0], Assign(m[1..], k, v));
        SortedCons(m[0], Assign(m[1..], k, v));
      }
    }
  }

  /**
   * map::insert on a sorted map: k finds v afterwards exactly when k was
   * absent; a present k keeps its value and the map does not change; every
   * other key finds what it found before.
   */
  lemma {:induction false} FindAfterInsert(m: Entries, k: string, v: string, k': string)
    requires Sorted(m)
    ensures Find(m, k).Some? ==> Insert(m, k, v) == m
    ensures Find(Insert(m, k, v), k') == if k' == k && Find(m, k).None? then Some(v) else Find(m, k')
  {
    if m != [] && m[0].key != k {
      assert m == [m[0]] + m[1..];
      SortedCons(m[0], m[1..]);
      KeysCons(m[0], m[1..]);
      if Less(k, m[0].key) {
        assert k !in Keys(m) by {
          if k in Keys(m[1..]) {
            LessTransitive(k, m[0].key, k);
            LessIrreflexive(k);
          }
        }
      } else {
        FindAfterInsert(m[1..], k, v, k');
      }
    }
  }

  /** map::operator[] assignment: k finds v, every other key what it found before. */
  lemma {:induction false} FindAfterAssign(m: Entries, k: string, v: string, k': string)
    requires Sorted(m)
    ensures Find(Assign(m, k, v), k') == if k' == k then Some(v) else Find(m, k')
  {
    if m != [] {
      assert m == [m[0]] + m[1..];
      SortedCons(m[0], m[1..]);
      if m[0].key == k {
        if k' == k {
          assert k !in Keys(m[1..]) by {
            if k in Keys(m[1..]) { LessIrreflexive(k); }
          }
        }
      } else if !Less(k, m[0].key) {
        FindAfterAssign(m[1..], k, v, k');
      }
    }
  }

  /** A key above every present key goes to the end, by Insert and by Assign alike. */
  lemma {:induction false} InsertGreatest(m: Entries, k: string, v: string)
    requires forall x | x in Keys(m) :: Less(x, k)
    ensures Insert(m, k, v) == m + [Entry(k, v)]
    ensures Assign(m, k, v) == m + [Entry(k, v)]
  {
    if m != [] {
      assert m == [m[0]] + m[1..];
      KeysCons(m[0], m[1..]);
      assert m[0].key in Keys(m);
      LessTotal(k, m[0].key);
      InsertGreatest(m[1..], k, v);
    }
  }

  /** In a sorted list p + q every key of p is below the first key of q, and moving that entry over to p keeps the list. */
  lemma SortedPrefixBelow(p: Entries, q: Entries)
    requires Sorted(p + q) && q != []
    ensures forall x | x in Keys(p) :: Less(x, q[0].key)
    ensures (p + [q[0]]) + q[1..] == p + q
  {
    forall x | x in Keys(p) ensures Less(x, q[0].key) {
      var y :| y in p && y.key == x;
      var j :| 0 <= j < |p| && p[j] == y;
      assert (p + q)[j] == y && (p + q)[|p|] == q[0];
    }
    assert q == [q[0]] + q[1..];
  }
}
