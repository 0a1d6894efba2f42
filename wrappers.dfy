/** Small value-level helpers shared by every module: optional values and
    the sequence utilities the source gets from JavaScript's Array and Set. */
module Wrappers {

  /** A value that may be absent (`undefined` / `null` in the source). */
  datatype Option<+T> = None | Some(value: T)

  /** The result of calling a collaborator that may throw. */
  datatype Outcome<+T> = Returned(value: T) | Threw

  /** No element occurs twice. */
  predicate NoDuplicates<T(==)>(s: seq<T>) {
    forall i, j | 0 <= i < j < |s| :: s[i] != s[j]
  }

  /** `Set.prototype.add` on an insertion-ordered set kept as a sequence. */
  function SetAdd<T(==)>(s: seq<T>, x: T): seq<T> {
    if x in s then s else s + [x]
  }

  /** Adds every element of `xs`, in order, to the insertion-ordered set `s`. */
  function SetAddAll<T(==)>(s: seq<T>, xs: seq<T>): seq<T>
    decreases |xs|
  {
    if xs == [] then s else SetAddAll(SetAdd(s, xs[0]), xs[1..])
  }

  /** `SetAdd` keeps the old elements first and adds `x` exactly when it is new. */
  lemma SetAddFacts<T>(s: seq<T>, x: T)
    ensures NoDuplicates(s) ==> NoDuplicates(SetAdd(s, x))
    ensures |SetAdd(s, x)| >= |s| && SetAdd(s, x)[..|s|] == s
    ensures forall y :: y in SetAdd(s, x) <==> y in s || y == x
  {
  }

  /** Adding keeps the old elements first, in their order. */
  lemma {:induction false} SetAddAllPrefix<T>(s: seq<T>, xs: seq<T>)
    ensures |SetAddAll(s, xs)| >= |s| && SetAddAll(s, xs)[..|s|] == s
    decreases |xs|
  {
    if xs != [] {
      var s' := SetAdd(s, xs[0]);
      SetAddFacts(s, xs[0]);
      SetAddAllPrefix(s', xs[1..]);
      var r := SetAddAll(s', xs[1..]);
      assert r[..|s|] == r[..|s'|][..|s|];
    }
  }

  /** The result holds exactly the old elements and the added ones. */
  lemma {:induction false} SetAddAllMembers<T>(s: seq<T>, xs: seq<T>)
    ensures forall x :: x in SetAddAll(s, xs) <==> x in s || x in xs
    decreases |xs|
  {
    if xs != [] {
      SetAddFacts(s, xs[0]);
      SetAddAllMembers(SetAdd(s, xs[0]), xs[1..]);
      assert forall x :: x in xs <==> x == xs[0] || x in xs[1..];
    }
  }

  /** Adding to a duplicate-free sequence keeps it duplicate-free. */
  lemma {:induction false} SetAddAllNoDuplicates<T>(s: seq<T>, xs: seq<T>)
    requires NoDuplicates(s)
    ensures NoDuplicates(SetAddAll(s, xs))
    decreases |xs|
  {
    if xs != [] {
      SetAddFacts(s, xs[0]);
      SetAddAllNoDuplicates(SetAdd(s, xs[0]), xs[1..]);
    }
  }

  /** The three facts about `SetAddAll` together. */
  lemma SetAddAllFacts<T>(s: seq<T>, xs: seq<T>)
    requires NoDuplicates(s)
    ensures NoDuplicates(SetAddAll(s, xs))
    ensures |SetAddAll(s, xs)| >= |s| && SetAddAll(s, xs)[..|s|] == s
    ensures forall x :: x in SetAddAll(s, xs) <==> x in s || x in xs
  {
    SetAddAllPrefix(s, xs);
    SetAddAllMembers(s, xs);
    SetAddAllNoDuplicates(s, xs);
  }

  /** Adding `a` and then `b` is adding `a + b`. */
  lemma {:induction false} SetAddAllConcat<T>(s: seq<T>, a: seq<T>, b: seq<T>)
    ensures SetAddAll(SetAddAll(s, a), b) == SetAddAll(s, a + b)
    decreases |a|
  {
    if a != [] {
      assert (a + b)[0] == a[0] && (a + b)[1..] == a[1..] + b;
      SetAddAllConcat(SetAdd(s, a[0]), a[1..], b);
    } else {
      assert a + b == b;
    }
  }

  /** `Array.prototype.join(sep)` on strings. */
  function Join(parts: seq<string>, sep: string): string {
    if parts == [] then ""
    else if |parts| == 1 then parts[0]
    else parts[0] + sep + Join(parts[1..], sep)
  }

  /** Joining one more part adds the separator and the part at the end. */
  lemma {:induction false} JoinAppend(parts: seq<string>, x: string, sep: string)
    ensures Join(parts + [x], sep) == if parts == [] then x else Join(parts, sep) + sep + x
  {
    if |parts| > 1 {
      assert (parts + [x])[1..] == parts[1..] + [x];
      JoinAppend(parts[1..], x, sep);
    } else if |parts| == 1 {
      assert (parts + [x])[1..] == [x];
    }
  }

  /** Joined non-empty parts give non-empty text. */
  lemma {:induction false} JoinNonEmpty(parts: seq<string>, sep: string)
    requires |parts| > 0 && forall k | 0 <= k < |parts| :: parts[k] != ""
    ensures Join(parts, sep) != ""
  {
    if |parts| > 1 {
      assert |Join(parts, sep)| >= |parts[0]|;
    }
  }

  /** `" ".repeat(n)`-style repetition. */
  function Repeat(s: string, n: nat): string {
    if n == 0 then "" else s + Repeat(s, n - 1)
  }

  /** Keeps the elements that satisfy `p`, in order (`Array.prototype.filter`). */
  function Filter<T>(s: seq<T>, p: T -> bool): (r: seq<T>)
    ensures |r| <= |s|
    ensures forall i | 0 <= i < |r| :: r[i] in s && p(r[i])
    ensures forall i | 0 <= i < |s| :: p(s[i]) ==> s[i] in r
  {
    if s == [] then [] else (if p(s[0]) then [s[0]] else []) + Filter(s[1..], p)
  }

  /** Filtering one more element keeps it at the end when it passes. */
  lemma {:induction false} FilterSnoc<T>(s: seq<T>, x: T, p: T -> bool)
    ensures Filter(s + [x], p) == Filter(s, p) + if p(x) then [x] else []
  {
    if s == [] {
      assert [x][1..] == [];
    } else {
      assert (s + [x])[1..] == s[1..] + [x];
      FilterSnoc(s[1..], x, p);
    }
  }

  /** Filtering a duplicate-free sequence leaves it duplicate-free. */
  lemma {:induction false} FilterNoDuplicates<T>(s: seq<T>, p: T -> bool)
    requires NoDuplicates(s)
    ensures NoDuplicates(Filter(s, p))
  {
    if s != [] {
      var rest := Filter(s[1..], p);
      assert NoDuplicates(s[1..]) by {
        forall i, j | 0 <= i < j < |s[1..]| ensures s[1..][i] != s[1..][j] {
          assert s[1..][i] == s[i + 1] && s[1..][j] == s[j + 1];
        }
      }
      FilterNoDuplicates(s[1..], p);
      if p(s[0]) {
        assert s[0] !in s[1..];
        assert s[0] !in rest;
        var r := [s[0]] + rest;
        forall i, j | 0 <= i < j < |r| ensures r[i] != r[j] {
          if i > 0 {
            assert r[i] == rest[i - 1] && r[j] == rest[j - 1];
          } else {
            assert r[j] == rest[j - 1];
          }
        }
      } else {
        assert Filter(s, p) == rest;
      }
    }
  }
}
