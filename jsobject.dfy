/**
 * A plain JavaScript object `{}` used as a dictionary keyed by strings, as
 * both analytics endpoints do: which keys it already answers through
 * `Object.prototype`, and the order in which `Object.entries` lists its own
 * keys (ECMAScript's OrdinaryOwnPropertyKeys, section 10.1.11.1 of
 * ECMA-262: array-index keys in ascending numeric order, then the other
 * string keys in the order they were created).
 */
module JsObject {
  import opened Strings
  import opened Seqs

  /**
   * The property names every `{}` inherits from `Object.prototype`. Reading
   * one gives a function or an object (truthy), and assigning a property of
   * the value read creates no own entry in the dictionary.
   */
  const InheritedNames: set<string> := {
    "constructor", "__defineGetter__", "__defineSetter__", "hasOwnProperty",
    "__lookupGetter__", "__lookupSetter__", "isPrototypeOf",
    "propertyIsEnumerable", "toString", "valueOf", "__proto__", "toLocaleString"
  }

  /**
   * An array index: the canonical decimal form of an integer below 2^32 - 1
   * ("0", or digits without a leading zero).
   */
  predicate IsArrayIndex(k: string)
  {
    k != [] && AllDigits(k) && (|k| > 1 ==> k[0] != '0') && DigitsValue(k) < 0xFFFF_FFFF
  }

  /** The numeric value an array-index key is ordered by. */
  function IndexValue(k: string): nat
  {
    if IsArrayIndex(k) then DigitsValue(k) else 0
  }

  predicate AscendingIndices<T>(xs: seq<T>, key: T -> string)
  {
    forall i, j :: 0 <= i < j < |xs| ==> IndexValue(key(xs[i])) <= IndexValue(key(xs[j]))
  }

  function InsertByIndex<T>(x: T, s: seq<T>, key: T -> string): (r: seq<T>)
    requires AscendingIndices(s, key)
    ensures AscendingIndices(r, key)
    ensures multiset(r) == multiset(s) + multiset{x}
  {
    if s == [] || IndexValue(key(x)) <= IndexValue(key(s[0])) then
      AscendingFront(x, s, key);
      [x] + s
    else
      var rest := InsertByIndex(x, s[1..], key);
      AscendingBehind(x, s, rest, key);
      [s[0]] + rest
  }

  lemma AscendingFront<T>(x: T, s: seq<T>, key: T -> string)
    requires AscendingIndices(s, key)
    requires s == [] || IndexValue(key(x)) <= IndexValue(key(s[0]))
    ensures AscendingIndices([x] + s, key)
  {
    var r := [x] + s;
    forall i, j | 0 <= i < j < |r| ensures IndexValue(key(r[i])) <= IndexValue(key(r[j])) {
      if i == 0 && j > 1 {
        assert IndexValue(key(s[0])) <= IndexValue(key(s[j - 1]));
      }
    }
  }

  lemma AscendingBehind<T>(x: T, s: seq<T>, rest: seq<T>, key: T -> string)
    requires s != [] && AscendingIndices(s, key) && IndexValue(key(s[0])) < IndexValue(key(x))
    requires AscendingIndices(rest, key) && multiset(rest) == multiset(s[1..]) + multiset{x}
    ensures AscendingIndices([s[0]] + rest, key)
    ensures multiset([s[0]] + rest) == multiset(s) + multiset{x}
  {
    assert s == [s[0]] + s[1..];
    var r := [s[0]] + rest;
    forall k | 0 <= k < |rest| ensures IndexValue(key(s[0])) <= IndexValue(key(rest[k])) {
      assert rest[k] in multiset(rest);
      if rest[k] != x {
        assert rest[k] in s[1..];
        var m :| 0 <= m < |s[1..]| && s[1..][m] == rest[k];
        assert s[m + 1] == rest[k];
      }
    }
    forall i, j | 0 <= i < j < |r| ensures IndexValue(key(r[i])) <= IndexValue(key(r[j])) {
      if i == 0 {
        assert r[j] == rest[j - 1];
      } else {
        assert r[i] == rest[i - 1] && r[j] == rest[j - 1];
      }
    }
  }

  /** The array-index entries sorted by their numeric key. */
  function SortByIndex<T>(xs: seq<T>, key: T -> string): (r: seq<T>)
    ensures AscendingIndices(r, key)
    ensures multiset(r) == multiset(xs)
  {
    if xs == [] then []
    else
      assert xs == [xs[0]] + xs[1..];
      InsertByIndex(xs[0], SortByIndex(xs[1..], key), key)
  }

  function IsIndexEntry<T>(key: T -> string): T -> bool
  {
    (x: T) => IsArrayIndex(key(x))
  }

  function IsNamedEntry<T>(key: T -> string): T -> bool
  {
    (x: T) => !IsArrayIndex(key(x))
  }

  /**
   * `Object.entries` of a dictionary whose own entries, in creation order,
   * are `xs`.
   */
  function EntriesOrder<T(!new)>(xs: seq<T>, key: T -> string): (r: seq<T>)
  {
    SortByIndex(Filter(xs, IsIndexEntry(key)), key) + Filter(xs, IsNamedEntry(key))
  }

  lemma {:induction false} FilterSplits<T(!new)>(xs: seq<T>, p: T -> bool, q: T -> bool)
    requires forall x :: x in xs ==> (q(x) <==> !p(x))
    ensures multiset(Filter(xs, p)) + multiset(Filter(xs, q)) == multiset(xs)
  {
    if xs != [] {
      assert xs == [xs[0]] + xs[1..];
      FilterSplits(xs[1..], p, q);
    }
  }

  lemma {:induction false} FilterKeepsAll<T(!new)>(xs: seq<T>, p: T -> bool)
    requires forall x :: x in xs ==> p(x)
    ensures Filter(xs, p) == xs
  {
    if xs != [] {
      assert xs == [xs[0]] + xs[1..];
      FilterKeepsAll(xs[1..], p);
    }
  }

  lemma {:induction false} FilterDropsAll<T(!new)>(xs: seq<T>, p: T -> bool)
    requires forall x :: x in xs ==> !p(x)
    ensures Filter(xs, p) == []
  {
    if xs != [] {
      assert xs == [xs[0]] + xs[1..];
      FilterDropsAll(xs[1..], p);
    }
  }

  /** `Object.entries` lists every own entry exactly once. */
  lemma EntriesArePermutation<T(!new)>(xs: seq<T>, key: T -> string)
    ensures multiset(EntriesOrder(xs, key)) == multiset(xs)
  {
    FilterSplits(xs, IsIndexEntry(key), IsNamedEntry(key));
  }

  /**
   * Whatever is listed before an array-index entry is itself an array-index
   * entry with a key no larger: the numeric keys come first, ascending.
   */
  lemma IndexKeysComeFirstAscending<T(!new)>(xs: seq<T>, key: T -> string)
    ensures var r := EntriesOrder(xs, key);
      forall i, j :: 0 <= i < j < |r| && IsArrayIndex(key(r[j])) ==>
        IsArrayIndex(key(r[i])) && DigitsValue(key(r[i])) <= DigitsValue(key(r[j]))
  {
    var idx := Filter(xs, IsIndexEntry(key));
    var sorted := SortByIndex(idx, key);
    var r := EntriesOrder(xs, key);
    assert r == sorted + Filter(xs, IsNamedEntry(key));
    forall y | y in sorted ensures IsArrayIndex(key(y)) {
      assert y in multiset(idx);
    }
    var named := Filter(xs, IsNamedEntry(key));
    forall k | |sorted| <= k < |r| ensures !IsArrayIndex(key(r[k])) {
      assert r[k] == named[k - |sorted|];
    }
    forall i, j | 0 <= i < j < |r| && IsArrayIndex(key(r[j]))
      ensures IsArrayIndex(key(r[i])) && DigitsValue(key(r[i])) <= DigitsValue(key(r[j]))
    {
      assert j < |sorted|;
      assert r[i] == sorted[i] && r[j] == sorted[j];
    }
  }

  /** Mapping the listed entries gives as many results as own entries, and the same ones. */
  lemma MappedEntriesCover<T(!new), U>(xs: seq<T>, key: T -> string, f: T -> U)
    ensures var rows := Map(EntriesOrder(xs, key), f);
      |rows| == |xs| && forall y :: y in rows <==> y in Map(xs, f)
  {
    EntriesArePermutation(xs, key);
    MapOfRearrangement(xs, EntriesOrder(xs, key), f);
  }

  lemma MapOfRearrangement<T, U>(xs: seq<T>, e: seq<T>, f: T -> U)
    requires multiset(e) == multiset(xs)
    ensures |Map(e, f)| == |xs|
    ensures forall y :: y in Map(e, f) <==> y in Map(xs, f)
  {
    var rows, image := Map(e, f), Map(xs, f);
    assert |e| == |multiset(e)| == |multiset(xs)| == |xs|;
    forall y | y in rows ensures y in image {
      var i :| 0 <= i < |rows| && rows[i] == y;
      assert e[i] in multiset(xs);
      var k :| 0 <= k < |xs| && xs[k] == e[i];
      assert image[k] == y;
    }
    forall y | y in image ensures y in rows {
      var k :| 0 <= k < |image| && image[k] == y;
      assert xs[k] in multiset(e);
      var i :| 0 <= i < |e| && e[i] == xs[k];
      assert rows[i] == y;
    }
  }

  /**
   * Mapping the listed entries to results named like their keys: the results
   * of numeric keys come first, ascending.
   */
  lemma MappedEntriesOrder<T(!new), U>(xs: seq<T>, key: T -> string, f: T -> U, name: U -> string)
    requires forall x :: name(f(x)) == key(x)
    ensures var rows := Map(EntriesOrder(xs, key), f);
      forall i, j :: 0 <= i < j < |rows| && IsArrayIndex(name(rows[j])) ==>
        IsArrayIndex(name(rows[i])) && DigitsValue(name(rows[i])) <= DigitsValue(name(rows[j]))
  {
    var e := EntriesOrder(xs, key);
    var rows := Map(e, f);
    IndexKeysComeFirstAscending(xs, key);
    forall i, j | 0 <= i < j < |rows| && IsArrayIndex(name(rows[j]))
      ensures IsArrayIndex(name(rows[i])) && DigitsValue(name(rows[i])) <= DigitsValue(name(rows[j]))
    {
      assert name(rows[i]) == key(e[i]) && name(rows[j]) == key(e[j]);
    }
  }

  /** The other keys keep the order in which the loop created them. */
  lemma NamedKeysKeepCreationOrder<T(!new)>(xs: seq<T>, key: T -> string)
    ensures Filter(EntriesOrder(xs, key), IsNamedEntry(key)) == Filter(xs, IsNamedEntry(key))
  {
    var idx := Filter(xs, IsIndexEntry(key));
    var sorted := SortByIndex(idx, key);
    var named := Filter(xs, IsNamedEntry(key));
    FilterAppend(sorted, named, IsNamedEntry(key));
    forall y | y in sorted ensures !IsNamedEntry(key)(y) {
      assert y in multiset(idx);
    }
    FilterDropsAll(sorted, IsNamedEntry(key));
    FilterKeepsAll(named, IsNamedEntry(key));
    assert [] + named == named;
  }

  /** Without a numeric key, `Object.entries` is the creation order. */
  lemma NoIndexKeyKeepsCreationOrder<T(!new)>(xs: seq<T>, key: T -> string)
    requires forall x :: x in xs ==> !IsArrayIndex(key(x))
    ensures EntriesOrder(xs, key) == xs
  {
    FilterDropsAll(xs, IsIndexEntry(key));
    FilterKeepsAll(xs, IsNamedEntry(key));
    assert [] + xs == xs;
  }

  function KeyItself(k: string): string { k }

  /** A subject named "B" created before one named "101" is listed after it. */
  lemma NumericNameMovesToTheFront()
    ensures EntriesOrder(["B", "101"], KeyItself) == ["101", "B"]
  {
    var p, q := IsIndexEntry(KeyItself), IsNamedEntry(KeyItself);
    assert "101"[..2] == "10" && "10"[..1] == "1" && "1"[..0] == [];
    assert DigitsValue("101") == 101;
    assert !IsDigit("B"[0]);
    assert IsArrayIndex("101") && !IsArrayIndex("B");
    assert KeyItself("101") == "101" && KeyItself("B") == "B";
    assert p("101") && !p("B") && q("B") && !q("101");
    assert ["B", "101"][1..] == ["101"] && ["101"][1..] == [];
    assert Filter(["101"], p) == ["101"] && Filter(["101"], q) == [];
    assert Filter(["B", "101"], p) == ["101"];
    assert Filter(["B", "101"], q) == ["B"];
  }

  /** Numeric keys are ordered as numbers: "9" comes before "10" although it is larger as text. */
  lemma NumericNamesAscendAsNumbers()
    ensures EntriesOrder(["10", "9"], KeyItself) == ["9", "10"]
  {
    var p := IsIndexEntry(KeyItself);
    assert "9"[..0] == [] && DigitsValue("9") == 9;
    assert "10"[..1] == "1" && "1"[..0] == [] && DigitsValue("10") == 10;
    assert IsArrayIndex("10") && IsArrayIndex("9");
    assert KeyItself("10") == "10" && KeyItself("9") == "9";
    assert p("10") && p("9");
    assert ["10", "9"][1..] == ["9"] && ["9"][1..] == [];
    assert Filter(["9"], p) == ["9"];
    assert Filter(["10", "9"], p) == ["10", "9"];
    assert Filter(["10", "9"], IsNamedEntry(KeyItself)) == [];
    assert IndexValue("9") == 9 && IndexValue("10") == 10;
    assert ["9"][1..] == [] && SortByIndex(["9"], KeyItself) == ["9"];
    assert InsertByIndex("10", ["9"], KeyItself) == ["9", "10"];
  }
}
