/** Python's ordering of strings (code point by code point, a proper prefix
    first) and the name sort `arranged_objects.sort(key=lambda item:
    item[0].name)` of the grid pass, as a stable insertion sort of
    (name, index) entries. */
module Ordering {

  /** `a <= b` on Python strings. */
  predicate LexLe(a: string, b: string) {
    a == [] || (b != [] && (a[0] < b[0] || (a[0] == b[0] && LexLe(a[1..], b[1..]))))
  }

  /** Any two strings are ordered one way or the other. */
  lemma {:induction false} LexLeTotal(a: string, b: string)
    ensures LexLe(a, b) || LexLe(b, a)
  {
    if a != [] && b != [] && a[0] == b[0] {
      LexLeTotal(a[1..], b[1..]);
    }
  }

  lemma {:induction false} LexLeTransitive(a: string, b: string, c: string)
    requires LexLe(a, b) && LexLe(b, c)
    ensures LexLe(a, c)
  {
    if a != [] && b != [] && c != [] && a[0] == b[0] == c[0] {
      LexLeTransitive(a[1..], b[1..], c[1..]);
    }
  }

  /** Strings that are each `<=` the other are equal. */
  lemma {:induction false} LexLeAntisymmetric(a: string, b: string)
    requires LexLe(a, b) && LexLe(b, a)
    ensures a == b
  {
    if a != [] && b != [] {
      LexLeAntisymmetric(a[1..], b[1..]);
      assert a == [a[0]] + a[1..] && b == [b[0]] + b[1..];
    }
  }

  /** A placeholder to lay out: its name and its position in the collection. */
  type Entry = (string, nat)

  predicate SortedByName(es: seq<Entry>) {
    forall i, j :: 0 <= i < j < |es| ==> LexLe(es[i].0, es[j].0)
  }

  /** Insert `e` before the first entry whose name is not smaller, so that
      entries with equal names keep their relative order. */
  function Insert(e: Entry, es: seq<Entry>): seq<Entry> {
    if es == [] || LexLe(e.0, es[0].0) then [e] + es
    else [es[0]] + Insert(e, es[1..])
  }

  function SortByName(es: seq<Entry>): seq<Entry> {
    if es == [] then [] else Insert(es[0], SortByName(es[1..]))
  }

  lemma {:induction false} InsertPermutes(e: Entry, es: seq<Entry>)
    ensures multiset(Insert(e, es)) == multiset(es) + multiset{e}
  {
    if es != [] && !LexLe(e.0, es[0].0) {
      InsertPermutes(e, es[1..]);
      assert es == [es[0]] + es[1..];
    }
  }

  lemma {:induction false} InsertSorted(e: Entry, es: seq<Entry>)
    requires SortedByName(es)
    ensures SortedByName(Insert(e, es))
  {
    if es == [] {
    } else if LexLe(e.0, es[0].0) {
      var r := [e] + es;
      forall i, j | 0 <= i < j < |r| ensures LexLe(r[i].0, r[j].0) {
        if i == 0 && j > 1 {
          LexLeTransitive(e.0, es[0].0, es[j - 1].0);
        }
      }
    } else {
      LexLeTotal(e.0, es[0].0);
      InsertSorted(e, es[1..]);
      InsertPermutes(e, es[1..]);
      var tail := Insert(e, es[1..]);
      var r := [es[0]] + tail;
      forall i, j | 0 <= i < j < |r| ensures LexLe(r[i].0, r[j].0) {
        if i == 0 {
          var x := tail[j - 1];
          assert x in multiset(tail);
          assert x == e || x in multiset(es[1..]);
          if x != e {
            var k :| 1 <= k < |es| && es[k] == x by {
              assert x in es[1..];
            }
          }
        }
      }
    }
  }

  /** The name sort returns the same entries, ordered by name. */
  lemma {:induction false} SortByNameSpec(es: seq<Entry>)
    ensures SortedByName(SortByName(es))
    ensures multiset(SortByName(es)) == multiset(es)
  {
    if es != [] {
      SortByNameSpec(es[1..]);
      InsertSorted(es[0], SortByName(es[1..]));
      InsertPermutes(es[0], SortByName(es[1..]));
      assert es == [es[0]] + es[1..];
    }
  }
}
