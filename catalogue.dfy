/** The ordering of the table of contents in `display_table_of_contents`: Python's
    stable `sorted` by title, by title with `reverse=True`, or by act number. */
module Catalogue {

  /** One entry of the table of contents, as read from an act's metadata file. */
  datatype Act = Act(title: string, actNumber: int, actYear: int, date: string, pdf: string)

  /** The sort options with a well-defined key. */
  datatype SortOption = Alphabetical | ReverseAlphabetical | ActNumber

  /** Python's `<=` on strings: lexicographic by code point. */
  predicate StrLe(a: string, b: string) {
    a == [] || (b != [] && (a[0] < b[0] || (a[0] == b[0] && StrLe(a[1..], b[1..]))))
  }

  lemma {:induction false} StrLeRefl(a: string)
    ensures StrLe(a, a)
  {
    if a != [] {
      StrLeRefl(a[1..]);
    }
  }

  lemma {:induction false} StrLeTotal(a: string, b: string)
    ensures StrLe(a, b) || StrLe(b, a)
  {
    if a != [] && b != [] && a[0] == b[0] {
      StrLeTotal(a[1..], b[1..]);
    }
  }

  lemma {:induction false} StrLeTrans(a: string, b: string, c: string)
    requires StrLe(a, b) && StrLe(b, c)
    ensures StrLe(a, c)
  {
    if a != [] && b != [] && c != [] && a[0] == b[0] == c[0] {
      StrLeTrans(a[1..], b[1..], c[1..]);
    }
  }

  /** Strings that are `<=` each other are equal. */
  lemma {:induction false} StrLeAntisymmetric(a: string, b: string)
    requires StrLe(a, b) && StrLe(b, a)
    ensures a == b
  {
    if a != [] && b != [] {
      StrLeAntisymmetric(a[1..], b[1..]);
      assert a == [a[0]] + a[1..] && b == [b[0]] + b[1..];
    }
  }

  /** `a` may come before `b` in the order the option asks for. */
  predicate Le(opt: SortOption, a: Act, b: Act) {
    match opt
    case Alphabetical => StrLe(a.title, b.title)
    case ReverseAlphabetical => StrLe(b.title, a.title)
    case ActNumber => a.actNumber <= b.actNumber
  }

  /** `a` and `b` have the same sort key. */
  predicate SameKey(opt: SortOption, a: Act, b: Act) {
    match opt
    case Alphabetical => a.title == b.title
    case ReverseAlphabetical => a.title == b.title
    case ActNumber => a.actNumber == b.actNumber
  }

  /** `Le` is a total preorder whose equivalence is `SameKey`. */
  lemma LeProperties(opt: SortOption, a: Act, b: Act, c: Act)
    ensures Le(opt, a, b) || Le(opt, b, a)
    ensures Le(opt, a, b) && Le(opt, b, c) ==> Le(opt, a, c)
    ensures SameKey(opt, a, b) <==> Le(opt, a, b) && Le(opt, b, a)
  {
    StrLeTotal(a.title, b.title);
    if Le(opt, a, b) && Le(opt, b, c) {
      if opt == Alphabetical {
        StrLeTrans(a.title, b.title, c.title);
      } else if opt == ReverseAlphabetical {
        StrLeTrans(c.title, b.title, a.title);
      }
    }
    if opt != ActNumber {
      StrLeRefl(a.title);
      if StrLe(a.title, b.title) && StrLe(b.title, a.title) {
        StrLeAntisymmetric(a.title, b.title);
      }
    }
  }

  /** The entries in the order the option asks for. */
  predicate Sorted(opt: SortOption, xs: seq<Act>) {
    forall i, j :: 0 <= i < j < |xs| ==> Le(opt, xs[i], xs[j])
  }

  /** The entries of `xs` whose key is that of `k`, in their order in `xs`. */
  function WithKey(opt: SortOption, xs: seq<Act>, k: Act): seq<Act> {
    if xs == [] then []
    else (if SameKey(opt, xs[0], k) then [xs[0]] else []) + WithKey(opt, xs[1..], k)
  }

  /** Puts `x` before the first entry it may precede, so before every entry with
      its own key. */
  function Insert(opt: SortOption, x: Act, s: seq<Act>): (r: seq<Act>)
    ensures |r| == |s| + 1
  {
    if s == [] || Le(opt, x, s[0]) then [x] + s else [s[0]] + Insert(opt, x, s[1..])
  }

  /** Insertion adds exactly the inserted entry. */
  lemma {:induction false} InsertCount(opt: SortOption, x: Act, s: seq<Act>)
    ensures multiset(Insert(opt, x, s)) == multiset(s) + multiset{x}
  {
    if s != [] && !Le(opt, x, s[0]) {
      InsertCount(opt, x, s[1..]);
      assert s == [s[0]] + s[1..];
    }
  }

  /** `sorted(titles, key=…, reverse=…)` for the option. */
  function SortActs(opt: SortOption, xs: seq<Act>): (r: seq<Act>)
    ensures multiset(r) == multiset(xs)
  {
    if xs == [] then []
    else
      InsertCount(opt, xs[0], SortActs(opt, xs[1..]));
      assert xs == [xs[0]] + xs[1..];
      Insert(opt, xs[0], SortActs(opt, xs[1..]))
  }

  lemma {:induction false} InsertSorted(opt: SortOption, x: Act, s: seq<Act>)
    requires Sorted(opt, s)
    ensures Sorted(opt, Insert(opt, x, s))
  {
    var r := Insert(opt, x, s);
    if s == [] {
    } else if Le(opt, x, s[0]) {
      forall j | 0 < j < |r| ensures Le(opt, x, r[j]) {
        LeProperties(opt, x, s[0], r[j]);
      }
    } else {
      var tail := Insert(opt, x, s[1..]);
      assert Sorted(opt, s[1..]);
      InsertSorted(opt, x, s[1..]);
      InsertCount(opt, x, s[1..]);
      LeProperties(opt, x, s[0], x);
      forall j | 0 <= j < |tail| ensures Le(opt, s[0], tail[j]) {
        assert tail[j] in multiset(s[1..]) + multiset{x};
        if tail[j] != x {
          var t :| 0 <= t < |s[1..]| && s[1..][t] == tail[j];
          assert s[t + 1] == tail[j];
        }
      }
      assert r == [s[0]] + tail;
    }
  }

  lemma {:induction false} WithKeyAppend(opt: SortOption, a: seq<Act>, b: seq<Act>, k: Act)
    ensures WithKey(opt, a + b, k) == WithKey(opt, a, k) + WithKey(opt, b, k)
  {
    if a != [] {
      assert (a + b)[0] == a[0] && (a + b)[1..] == a[1..] + b;
      WithKeyAppend(opt, a[1..], b, k);
    } else {
      assert a + b == b;
    }
  }

  /** Inserting `x` puts it in front of every entry with its key. */
  lemma {:induction false} InsertWithKey(opt: SortOption, x: Act, s: seq<Act>, k: Act)
    ensures WithKey(opt, Insert(opt, x, s), k) == WithKey(opt, [x], k) + WithKey(opt, s, k)
  {
    if s == [] || Le(opt, x, s[0]) {
      WithKeyAppend(opt, [x], s, k);
    } else {
      InsertWithKey(opt, x, s[1..], k);
      LeProperties(opt, x, s[0], k);
      LeProperties(opt, x, k, s[0]);
      LeProperties(opt, s[0], k, x);
      LeProperties(opt, k, s[0], x);
      assert Insert(opt, x, s) == [s[0]] + Insert(opt, x, s[1..]);
      assert WithKey(opt, [x], k) == (if SameKey(opt, x, k) then [x] else []);
    }
  }

  /** The table is in the order the option asks for, holds the same entries, and
      keeps entries with equal keys in their original order (the sort is stable,
      also with `reverse=True`). */
  lemma {:induction false} SortActsCorrect(opt: SortOption, xs: seq<Act>)
    ensures Sorted(opt, SortActs(opt, xs))
    ensures multiset(SortActs(opt, xs)) == multiset(xs)
    ensures forall k :: WithKey(opt, SortActs(opt, xs), k) == WithKey(opt, xs, k)
  {
    if xs != [] {
      var rest := SortActs(opt, xs[1..]);
      SortActsCorrect(opt, xs[1..]);
      InsertSorted(opt, xs[0], rest);
      assert xs == [xs[0]] + xs[1..];
      forall k ensures WithKey(opt, SortActs(opt, xs), k) == WithKey(opt, xs, k) {
        InsertWithKey(opt, xs[0], rest, k);
        WithKeyAppend(opt, [xs[0]], xs[1..], k);
      }
    }
  }
}
