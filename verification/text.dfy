/**
 * The .NET string operations the generator relies on, over `string` (= `seq<char>`):
 * `string.Join`, `string.Contains`, `string.Replace(char, char)`, `char.ToLowerInvariant`
 * and the ordering used by `Order()` on a set of namespace names.
 */
module Text {

  /** `string.Join(sep, items)`: the items in order, with `sep` between neighbours. */
  function Join(sep: string, items: seq<string>): string
    decreases |items|
  {
    if |items| == 0 then ""
    else if |items| == 1 then items[0]
    else Join(sep, items[..|items| - 1]) + sep + items[|items| - 1]
  }

  /** Where item `i` starts inside `Join(sep, items)`. */
  function JoinOffset(sep: string, items: seq<string>, i: nat): nat
    requires i <= |items|
  {
    |Join(sep, items[..i])| + (if i == 0 then 0 else |sep|)
  }

  /** Every item appears, unchanged, at its own place in the joined text: items keep their
    * order and each occurrence (duplicates included) has its own slot. */
  lemma {:induction false} JoinAt(sep: string, items: seq<string>, i: nat)
    requires i < |items|
    ensures JoinOffset(sep, items, i) + |items[i]| <= |Join(sep, items)|
    ensures Join(sep, items)[JoinOffset(sep, items, i)..JoinOffset(sep, items, i) + |items[i]|] == items[i]
    decreases |items|
  {
    var n := |items|;
    if n == 1 {
      assert items[..0] == [];
    } else {
      var prefix := items[..n - 1];
      assert items[..i] == prefix[..i] by { assert i <= n - 1; }
      if i < n - 1 {
        JoinAt(sep, prefix, i);
        assert prefix[i] == items[i];
        var off := JoinOffset(sep, items, i);
        assert off == JoinOffset(sep, prefix, i);
        var j := Join(sep, prefix);
        assert Join(sep, items) == j + sep + items[n - 1];
        assert Join(sep, items)[off..off + |items[i]|] == j[off..off + |items[i]|];
      } else {
        assert prefix == items[..i];
      }
    }
  }

  /** Number of separators plus item lengths: the joined text adds nothing else. */
  lemma {:induction false} JoinLength(sep: string, items: seq<string>)
    ensures |Join(sep, items)| == TotalLength(items) + (if |items| == 0 then 0 else (|items| - 1) * |sep|)
    decreases |items|
  {
    var n := |items|;
    if n > 1 {
      JoinLength(sep, items[..n - 1]);
      JoinSnocLength(sep, items);
      assert (n - 2) * |sep| + |sep| == (n - 1) * |sep|;
    } else if n == 1 {
      TotalLengthSnoc([], items[0]);
      assert [] + [items[0]] == items;
    }
  }

  /** One more item adds a separator and the item's length. */
  lemma JoinSnocLength(sep: string, items: seq<string>)
    requires |items| > 1
    ensures |Join(sep, items)| == |Join(sep, items[..|items| - 1])| + |sep| + |items[|items| - 1]|
    ensures TotalLength(items) == TotalLength(items[..|items| - 1]) + |items[|items| - 1]|
  {
    var n := |items|;
    TotalLengthSnoc(items[..n - 1], items[n - 1]);
    assert items[..n - 1] + [items[n - 1]] == items;
  }

  function TotalLength(items: seq<string>): nat
  {
    if items == [] then 0 else |items[0]| + TotalLength(items[1..])
  }

  lemma {:induction false} TotalLengthSnoc(items: seq<string>, x: string)
    ensures TotalLength(items + [x]) == TotalLength(items) + |x|
  {
    if items != [] {
      assert (items + [x])[1..] == items[1..] + [x];
      TotalLengthSnoc(items[1..], x);
    }
  }

  /** `s.Contains(p)` with ordinal comparison: `p` occurs somewhere in `s`. */
  predicate Contains(s: string, p: string)
    decreases |s|
  {
    |p| <= |s| && (s[..|p|] == p || Contains(s[1..], p))
  }

  /** An occurrence of `p` at any position makes `Contains` hold. */
  lemma {:induction false} ContainsAt(s: string, p: string, k: nat)
    requires k + |p| <= |s| && s[k..k + |p|] == p
    ensures Contains(s, p)
    decreases k
  {
    if k > 0 {
      assert s[1..][k - 1..k - 1 + |p|] == s[k..k + |p|];
      ContainsAt(s[1..], p, k - 1);
    }
  }

  /** Conversely, `Contains` holds only when `p` occurs at some position, which is returned. */
  lemma {:induction false} ContainsWhere(s: string, p: string) returns (k: nat)
    requires Contains(s, p)
    ensures k + |p| <= |s| && s[k..k + |p|] == p
    decreases |s|
  {
    if s[..|p|] == p {
      k := 0;
    } else {
      var j := ContainsWhere(s[1..], p);
      k := j + 1;
      assert s[1..][j..j + |p|] == s[k..k + |p|];
    }
  }

  /** `s.Replace(c, d)`: every `c` becomes `d`, every other character stays. */
  function Replace(s: string, c: char, d: char): (r: string)
    ensures |r| == |s|
    ensures forall i :: 0 <= i < |s| ==> r[i] == if s[i] == c then d else s[i]
  {
    if s == [] then [] else [if s[0] == c then d else s[0]] + Replace(s[1..], c, d)
  }

  /** `char.ToLowerInvariant` on the Latin letters A-Z; every other character is unchanged. */
  function ToLowerInvariant(ch: char): (r: char)
    ensures 'A' <= ch <= 'Z' ==> 'a' <= r <= 'z' && r as int - ch as int == 'a' as int - 'A' as int
    ensures !('A' <= ch <= 'Z') ==> r == ch
  {
    if 'A' <= ch <= 'Z' then (ch as int - 'A' as int + 'a' as int) as char else ch
  }

  /** Ordinal lexicographic order on strings: `a` sorts no later than `b`. */
  predicate Le(a: string, b: string)
    decreases |a|
  {
    |a| == 0 || (|b| > 0 && (a[0] < b[0] || (a[0] == b[0] && Le(a[1..], b[1..]))))
  }

  lemma {:induction false} LeReflexive(a: string)
    ensures Le(a, a)
    decreases |a|
  {
    if |a| > 0 { LeReflexive(a[1..]); }
  }

  lemma {:induction false} LeAntisymmetric(a: string, b: string)
    requires Le(a, b) && Le(b, a)
    ensures a == b
    decreases |a|
  {
    if |a| > 0 {
      LeAntisymmetric(a[1..], b[1..]);
      assert a == [a[0]] + a[1..] && b == [b[0]] + b[1..];
    }
  }

  lemma {:induction false} LeTransitive(a: string, b: string, c: string)
    requires Le(a, b) && Le(b, c)
    ensures Le(a, c)
    decreases |a|
  {
    if |a| > 0 && a[0] == b[0] == c[0] {
      LeTransitive(a[1..], b[1..], c[1..]);
    }
  }

  lemma {:induction false} LeTotal(a: string, b: string)
    ensures Le(a, b) || Le(b, a)
    decreases |a|
  {
    if |a| > 0 && |b| > 0 && a[0] == b[0] {
      LeTotal(a[1..], b[1..]);
    }
  }

  lemma LeAntisymmetricAll()
    ensures forall a, b :: Le(a, b) && Le(b, a) ==> a == b
  {
    forall a, b | Le(a, b) && Le(b, a) ensures a == b { LeAntisymmetric(a, b); }
  }

  /** Strictly increasing: sorted, and so free of duplicates. */
  predicate StrictlySorted(xs: seq<string>)
  {
    forall i, j :: 0 <= i < j < |xs| ==> Le(xs[i], xs[j]) && xs[i] != xs[j]
  }

  /** The least element of a non-empty finite set of strings; the order is total and
    * antisymmetric, so there is exactly one. */
  function Least(s: set<string>): (m: string)
    requires s != {}
    ensures m in s && forall x :: x in s ==> Le(m, x)
  {
    LeastExists(s);
    LeAntisymmetricAll();
    var m :| m in s && forall x :: x in s ==> Le(m, x); m
  }

  lemma {:induction false} LeastExists(s: set<string>)
    requires s != {}
    ensures exists m :: m in s && forall x :: x in s ==> Le(m, x)
    decreases |s|
  {
    var x :| x in s;
    if s == {x} {
      LeReflexive(x);
      assert forall z :: z in s ==> z == x;
    } else {
      var rest := s - {x};
      LeastExists(rest);
      var y :| y in rest && forall z :: z in rest ==> Le(y, z);
      LeTotal(x, y);
      if Le(x, y) {
        LeReflexive(x);
        LeTransitiveFrom(x, y, rest);
        assert forall z :: z in s ==> z == x || z in rest;
        assert x in s && forall z :: z in s ==> Le(x, z);
      } else {
        assert forall z :: z in s ==> z == x || z in rest;
        assert y in s && forall z :: z in s ==> Le(y, z);
      }
    }
  }

  /** The elements of a finite set, in increasing order (`Order()` on a set). */
  function Sorted(s: set<string>): (r: seq<string>)
    decreases |s|
  {
    if s == {} then [] else [Least(s)] + Sorted(s - {Least(s)})
  }

  /** `Sorted` lists each element of the set once, in strictly increasing order, and nothing else. */
  lemma {:induction false} SortedSpec(s: set<string>)
    ensures StrictlySorted(Sorted(s))
    ensures forall x :: x in Sorted(s) <==> x in s
    ensures |Sorted(s)| == |s|
    decreases |s|
  {
    if s != {} {
      var m := Least(s);
      var rest := s - {m};
      SortedSpec(rest);
      var r := Sorted(s);
      assert r == [m] + Sorted(rest);
      forall i, j | 0 <= i < j < |r| ensures Le(r[i], r[j]) && r[i] != r[j] {
        if i == 0 {
          assert r[j] == Sorted(rest)[j - 1];
          assert r[j] in rest;
        } else {
          assert r[i] == Sorted(rest)[i - 1] && r[j] == Sorted(rest)[j - 1];
        }
      }
    }
  }

  lemma LeTransitiveFrom(x: string, y: string, s: set<string>)
    requires Le(x, y) && forall z :: z in s ==> Le(y, z)
    ensures forall z :: z in s ==> Le(x, z)
  {
    forall z | z in s ensures Le(x, z) { LeTransitive(x, y, z); }
  }
}
