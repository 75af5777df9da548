/**
  The orderings the engine puts its answers in: `sort_by` on a key and, for
  plain strings, `sort` followed by `dedup`. Both compare strings byte by byte.
*/
module Sorting {
  import opened Text

  /** `s` is in non-decreasing order of `key`. */
  ghost predicate SortedBy<T>(s: seq<T>, key: T -> string) {
    forall i, j | 0 <= i < j < |s| :: LexLe(key(s[i]), key(s[j]))
  }

  /** `s` is in increasing order with no repeats. */
  ghost predicate StrictlySorted(s: seq<string>) {
    forall i, j | 0 <= i < j < |s| :: LexLe(s[i], s[j]) && s[i] != s[j]
  }

  /** `x` placed into sorted `s` before the first element with a greater key. */
  function Insert<T>(x: T, s: seq<T>, key: T -> string): (r: seq<T>)
    requires SortedBy(s, key)
    ensures multiset(r) == multiset(s) + multiset{x}
    ensures SortedBy(r, key)
  {
    if s == [] then [x]
    else if LexLe(key(x), key(s[0])) then
      assert forall j | 0 <= j < |s| :: LexLe(key(x), key(s[j])) by {
        forall j | 0 <= j < |s| ensures LexLe(key(x), key(s[j])) {
          if j > 0 {
            LexLeTransitive(key(x), key(s[0]), key(s[j]));
          }
        }
      }
      [x] + s
    else
      LexLeTotal(key(x), key(s[0]));
      var rest := Insert(x, s[1..], key);
      assert s == [s[0]] + s[1..];
      assert forall j | 0 <= j < |rest| :: LexLe(key(s[0]), key(rest[j])) by {
        forall j | 0 <= j < |rest| ensures LexLe(key(s[0]), key(rest[j])) {
          assert rest[j] in multiset(rest);
          if rest[j] != x {
            assert rest[j] in multiset(s[1..]);
            var k :| 0 <= k < |s[1..]| && s[1..][k] == rest[j];
            assert s[k + 1] == rest[j];
          }
        }
      }
      [s[0]] + rest
  }

  /** Rust's `sort_by(|a, b| key(a).cmp(key(b)))`, as an insertion sort. */
  function SortBy<T>(s: seq<T>, key: T -> string): (r: seq<T>)
    ensures multiset(r) == multiset(s)
    ensures SortedBy(r, key)
  {
    if s == [] then []
    else
      assert s == [s[0]] + s[1..];
      Insert(s[0], SortBy(s[1..], key), key)
  }

  /** Rust's `dedup`: each run of equal neighbours collapsed to one. */
  function Dedup(s: seq<string>): (r: seq<string>)
    ensures forall x :: x in r <==> x in s
    ensures |r| <= |s|
    ensures s != [] ==> r != [] && r[0] == s[0]
    ensures SortedBy(s, Identity) ==> StrictlySorted(r)
  {
    if |s| <= 1 then s
    else
      var rest := Dedup(s[1..]);
      if s[0] == s[1] then
        rest
      else
        assert SortedBy(s, Identity) ==> SortedBy(s[1..], Identity) by {
          if SortedBy(s, Identity) {
            forall i, j | 0 <= i < j < |s[1..]| ensures LexLe(s[1..][i], s[1..][j]) {
              assert s[1..][i] == s[i + 1] && s[1..][j] == s[j + 1];
            }
          }
        }
        DedupHead(s, rest);
        [s[0]] + rest
  }

  lemma DedupHead(s: seq<string>, rest: seq<string>)
    requires |s| >= 2 && s[0] != s[1]
    requires forall x :: x in rest <==> x in s[1..]
    requires SortedBy(s, Identity) ==> StrictlySorted(rest)
    ensures SortedBy(s, Identity) ==> StrictlySorted([s[0]] + rest)
  {
    if SortedBy(s, Identity) {
      var r := [s[0]] + rest;
      forall i, j | 0 <= i < j < |r| ensures LexLe(r[i], r[j]) && r[i] != r[j] {
        if i == 0 {
          assert r[j] in s[1..];
          var k :| 1 <= k < |s| && s[k] == r[j];
          assert LexLe(s[0], s[k]);
          if s[0] == s[k] {
            assert LexLe(s[1], s[k]) && LexLe(s[0], s[1]);
            LexLeAntisymmetric(s[0], s[1]);
          }
        } else {
          assert r[i] == rest[i - 1] && r[j] == rest[j - 1];
        }
      }
    }
  }

  function Identity(s: string): string { s }

  /** `sort` then `dedup` on strings: the same strings, once each, in increasing order. */
  lemma SortDedup(s: seq<string>)
    ensures forall x :: x in Dedup(SortBy(s, Identity)) <==> x in s
    ensures StrictlySorted(Dedup(SortBy(s, Identity)))
  {
    var t := SortBy(s, Identity);
    forall x ensures x in t <==> x in s {
      assert x in t <==> x in multiset(t);
      assert x in s <==> x in multiset(s);
    }
  }
}
