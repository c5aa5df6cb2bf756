/** String helpers shared by the query builder, the URL model and the environment record. */
module Strings {
  import opened Wrappers

  /** The items separated by `sep`, as java.util.StringJoiner with empty prefix and suffix builds them. */
  function Join(items: seq<string>, sep: string): (r: string)
    ensures |items| == 1 ==> r == items[0]
  {
    if |items| == 0 then ""
    else if |items| == 1 then items[0]
    else items[0] + sep + Join(items[1..], sep)
  }

  /** The pieces of `s` between occurrences of `d`, empty pieces included. */
  function Split(s: string, d: char): (parts: seq<string>)
    ensures |parts| >= 1
    ensures forall i :: 0 <= i < |parts| ==> d !in parts[i]
    decreases |s|
  {
    if s == [] then [[]]
    else
      var rest := Split(s[1..], d);
      if s[0] == d then [[]] + rest
      else [[s[0]] + rest[0]] + rest[1..]
  }

  /** The position of the first `c` in `s`, if any. */
  function IndexOf(s: string, c: char): (r: Option<nat>)
    ensures r.Some? ==> r.value < |s| && s[r.value] == c && c !in s[..r.value]
    ensures r.None? ==> c !in s
  {
    if s == [] then None
    else if s[0] == c then Some(0)
    else match IndexOf(s[1..], c)
      case None => None
      case Some(i) => Some(i + 1)
  }

  /** The position of the last `c` in `s`, if any. */
  function LastIndexOf(s: string, c: char): (r: Option<nat>)
    ensures r.Some? ==> r.value < |s| && s[r.value] == c && c !in s[r.value + 1..]
    ensures r.None? ==> c !in s
  {
    if s == [] then None
    else if s[|s| - 1] == c then Some(|s| - 1)
    else LastIndexOf(s[..|s| - 1], c)
  }

  /** Appending one more item to a non-empty list adds the separator and the item at the end. */
  lemma {:induction false} JoinSnoc(items: seq<string>, item: string, sep: string)
    requires |items| >= 1
    ensures Join(items + [item], sep) == Join(items, sep) + sep + item
    decreases |items|
  {
    if |items| == 1 {
      assert items + [item] == [items[0], item];
    } else {
      assert (items + [item])[1..] == items[1..] + [item];
      JoinSnoc(items[1..], item, sep);
    }
  }

  /** Splitting a string that starts with a piece free of `d`, followed by `d`, peels that piece off. */
  lemma {:induction false} SplitCons(p: string, d: char, rest: string)
    requires d !in p
    ensures Split(p + [d] + rest, d) == [p] + Split(rest, d)
    decreases |p|
  {
    if p == [] {
      assert p + [d] + rest == [d] + rest;
      assert ([d] + rest)[1..] == rest;
    } else {
      assert (p + [d] + rest)[1..] == p[1..] + [d] + rest;
      SplitCons(p[1..], d, rest);
      assert [p[0]] + p[1..] == p;
    }
  }

  /** A string without `d` splits into itself alone. */
  lemma {:induction false} SplitNone(p: string, d: char)
    requires d !in p
    ensures Split(p, d) == [p]
    decreases |p|
  {
    if p != [] {
      SplitNone(p[1..], d);
      assert [p[0]] + p[1..] == p;
    }
  }

  /** Splitting on `d` undoes joining with `d`, when no item contains `d`. */
  lemma {:induction false} SplitJoin(items: seq<string>, d: char)
    requires |items| >= 1
    requires forall i :: 0 <= i < |items| ==> d !in items[i]
    ensures Split(Join(items, [d]), d) == items
    decreases |items|
  {
    if |items| == 1 {
      SplitNone(items[0], d);
    } else {
      SplitJoin(items[1..], d);
      SplitCons(items[0], d, Join(items[1..], [d]));
      assert [items[0]] + items[1..] == items;
    }
  }

  /**
   * Joining non-empty items that do not contain `d` puts a single `d` between neighbours and
   * none at either end.
   */
  lemma {:induction false} JoinWellSeparated(items: seq<string>, d: char)
    requires |items| >= 1
    requires forall i :: 0 <= i < |items| ==> items[i] != [] && d !in items[i]
    ensures var r := Join(items, [d]);
      && r != [] && r[0] != d && r[|r| - 1] != d
      && forall i :: 0 <= i < |r| - 1 && r[i] == d ==> r[i + 1] != d
    decreases |items|
  {
    var r := Join(items, [d]);
    if |items| == 1 {
      assert r == items[0];
    } else {
      var head := items[0];
      var tail := Join(items[1..], [d]);
      JoinWellSeparated(items[1..], d);
      assert r == head + [d] + tail;
      assert r[0] == head[0];
      assert r[|r| - 1] == tail[|tail| - 1];
      forall i | 0 <= i < |r| - 1 && r[i] == d ensures r[i + 1] != d {
        if i == |head| {
          assert r[i + 1] == tail[0];
        } else {
          assert r[i] == tail[i - |head| - 1] && r[i + 1] == tail[i - |head|];
        }
      }
    }
  }

  /** The first `c` after a prefix free of `c` is the one right after the prefix. */
  lemma IndexOfAfterPrefix(prefix: string, c: char, rest: string)
    requires c !in prefix
    ensures IndexOf(prefix + [c] + rest, c) == Some(|prefix|)
  {
    var s := prefix + [c] + rest;
    assert s[|prefix|] == c;
  }

  /** The last `c` before a suffix free of `c` is the one right before the suffix. */
  lemma LastIndexOfBeforeSuffix(prefix: string, c: char, rest: string)
    requires c !in rest
    ensures LastIndexOf(prefix + [c] + rest, c) == Some(|prefix|)
  {
    var s := prefix + [c] + rest;
    assert s[|prefix|] == c;
    assert s[|prefix| + 1..] == rest;
  }

  /** Concatenation regroups freely. */
  lemma Regroup<T>(a: seq<T>, b: seq<T>, c: seq<T>)
    ensures a + b + c == a + (b + c)
  {
  }

  /** A non-empty sequence is its first element followed by the rest. */
  lemma Uncons<T>(s: seq<T>)
    requires s != []
    ensures [s[0]] + s[1..] == s
  {
  }

  /** Where the item with index `k` starts in the join. */
  function Offset(items: seq<string>, sep: string, k: nat): (n: nat)
    requires k <= |items|
  {
    if k == 0 then 0 else |items[0]| + |sep| + Offset(items[1..], sep, k - 1)
  }

  /** Each item stands in the join at its offset, and the last one ends the join. */
  lemma {:induction false} JoinAt(items: seq<string>, sep: string, k: nat)
    requires k < |items|
    ensures Offset(items, sep, k) + |items[k]| <= |Join(items, sep)|
    ensures Join(items, sep)[Offset(items, sep, k)..Offset(items, sep, k) + |items[k]|] == items[k]
    ensures k == |items| - 1 ==> |Join(items, sep)| == Offset(items, sep, k) + |items[k]|
    decreases k
  {
    if k == 0 {
      JoinFirst(items, sep);
    } else {
      JoinAt(items[1..], sep, k - 1);
      JoinLater(items, sep, k);
    }
  }

  /** The first item starts the join, and ends it when it is the only one. */
  lemma JoinFirst(items: seq<string>, sep: string)
    requires |items| > 0
    ensures |items[0]| <= |Join(items, sep)|
    ensures Join(items, sep)[..|items[0]|] == items[0]
    ensures |items| == 1 ==> |Join(items, sep)| == |items[0]|
  {
    if |items| > 1 {
      var rest := Join(items[1..], sep);
      Regroup(items[0], sep, rest);
      SliceBefore(items[0], sep + rest);
    }
  }

  /** A later item stands in the join where it stands in the join of the items after the first, shifted. */
  lemma JoinLater(items: seq<string>, sep: string, k: nat)
    requires 0 < k < |items|
    requires Offset(items[1..], sep, k - 1) + |items[k]| <= |Join(items[1..], sep)|
    requires Join(items[1..], sep)[Offset(items[1..], sep, k - 1)..Offset(items[1..], sep, k - 1) + |items[k]|] == items[k]
    ensures Offset(items, sep, k) + |items[k]| <= |Join(items, sep)|
    ensures Join(items, sep)[Offset(items, sep, k)..Offset(items, sep, k) + |items[k]|] == items[k]
    ensures |Join(items, sep)| == |items[0]| + |sep| + |Join(items[1..], sep)|
  {
    var head, rest := items[0] + sep, Join(items[1..], sep);
    assert Join(items, sep) == head + rest;
    var o := Offset(items[1..], sep, k - 1);
    assert Offset(items, sep, k) == |head| + o;
    SliceAfter(head, rest, o, o + |items[k]|);
  }

  /** A string is its part before position `i`, the character there, and its part after it. */
  lemma SplitAround(s: string, i: nat)
    requires i < |s|
    ensures s == s[..i] + [s[i]] + s[i + 1..]
    ensures forall c :: c !in s ==> c !in s[..i] && c !in s[i + 1..]
  {
  }

  /** A slice of the second part of a concatenation. */
  lemma SliceAfter(a: string, b: string, i: nat, j: nat)
    requires i <= j <= |b|
    ensures (a + b)[|a| + i..|a| + j] == b[i..j]
  {
  }

  /** The first part of a concatenation. */
  lemma SliceBefore(a: string, b: string)
    ensures (a + b)[..|a|] == a
  {
  }
}
