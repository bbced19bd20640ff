/** Character-level helpers shared by the PHP and Python parts: ASCII case
    folding (PHP's `strtolower`), the byte-wise lexicographic order PHP uses
    to compare non-numeric string keys, `explode`/`implode` on one separator
    character, and the ascending enumeration of a finite set of string keys
    that `ksort` performs. */
module Text {

  /* ---------- ASCII case folding ---------- */

  function LowerChar(c: char): (d: char)
    ensures 'A' <= c <= 'Z' ==> d as int == c as int + 32
    ensures !('A' <= c <= 'Z') ==> d == c
  {
    if 'A' <= c <= 'Z' then (c as int + 32) as char else c
  }

  /** `strtolower`: every upper-case ASCII letter is replaced by its lower-case
      counterpart; every other character is kept. */
  function ToLower(s: string): (r: string)
    ensures |r| == |s|
    ensures forall i :: 0 <= i < |s| ==> r[i] == LowerChar(s[i])
  {
    seq(|s|, i requires 0 <= i < |s| => LowerChar(s[i]))
  }

  /** Folding twice is folding once, so a lookup keyed on `ToLower(name)`
      answers identically for `name` and for `ToLower(name)`. */
  lemma ToLowerIdempotent(s: string)
    ensures ToLower(ToLower(s)) == ToLower(s)
  {
    var once := ToLower(s);
    var twice := ToLower(once);
    forall i | 0 <= i < |s|
      ensures twice[i] == once[i]
    {
      assert twice[i] == LowerChar(once[i]);
    }
  }

  /* ---------- Lexicographic order on strings ---------- */

  /** Strict byte-wise lexicographic order (C `strcmp(a, b) < 0`). */
  predicate StrLt(a: string, b: string)
    decreases |a|
  {
    if |a| == 0 then |b| > 0
    else if |b| == 0 then false
    else if a[0] != b[0] then a[0] < b[0]
    else StrLt(a[1..], b[1..])
  }

  lemma {:induction false} StrLtIrreflexive(a: string)
    ensures !StrLt(a, a)
    decreases |a|
  {
    if |a| > 0 {
      StrLtIrreflexive(a[1..]);
    }
  }

  lemma {:induction false} StrLtAsymmetric(a: string, b: string)
    ensures StrLt(a, b) ==> !StrLt(b, a)
    decreases |a|
  {
    if |a| > 0 && |b| > 0 && a[0] == b[0] {
      StrLtAsymmetric(a[1..], b[1..]);
    }
  }

  lemma {:induction false} StrLtTransitive(a: string, b: string, c: string)
    requires StrLt(a, b) && StrLt(b, c)
    ensures StrLt(a, c)
    decreases |a|
  {
    if |a| > 0 && a[0] == b[0] && b[0] == c[0] {
      StrLtTransitive(a[1..], b[1..], c[1..]);
    }
  }

  lemma {:induction false} StrLtTotal(a: string, b: string)
    requires a != b
    ensures StrLt(a, b) || StrLt(b, a)
    decreases |a|
  {
    if |a| > 0 && |b| > 0 && a[0] == b[0] {
      assert a == [a[0]] + a[1..] && b == [b[0]] + b[1..];
      StrLtTotal(a[1..], b[1..]);
    }
  }

  /** `k` precedes every other member of `ks`. */
  predicate IsLeastKey(k: string, ks: set<string>)
  {
    k in ks && forall j :: j in ks && j != k ==> StrLt(k, j)
  }

  lemma {:induction false} LeastKeyExists(ks: set<string>)
    requires ks != {}
    ensures exists k :: IsLeastKey(k, ks)
    decreases |ks|
  {
    var x :| x in ks;
    var rest := ks - {x};
    if rest == {} {
      assert ks == {x};
      assert IsLeastKey(x, ks);
    } else {
      LeastKeyExists(rest);
      var m :| IsLeastKey(m, rest);
      if StrLt(x, m) {
        forall j | j in ks && j != x
          ensures StrLt(x, j)
        {
          if j != m {
            StrLtTransitive(x, m, j);
          }
        }
        assert IsLeastKey(x, ks);
      } else {
        StrLtTotal(x, m);
        assert IsLeastKey(m, ks);
      }
    }
  }

  lemma LeastKeyUnique(ks: set<string>)
    ensures forall a, b :: IsLeastKey(a, ks) && IsLeastKey(b, ks) ==> a == b
  {
    forall a, b | IsLeastKey(a, ks) && IsLeastKey(b, ks)
      ensures a == b
    {
      if a != b {
        StrLtAsymmetric(a, b);
      }
    }
  }

  predicate StrictlyAscending(ks: seq<string>)
  {
    forall i, j :: 0 <= i < j < |ks| ==> StrLt(ks[i], ks[j])
  }

  /** Two strings that agree up to position `n` and differ there are
      ordered by their characters at `n`. */
  lemma {:induction false} StrLtAt(a: string, b: string, n: nat)
    requires n < |a| && n < |b| && a[..n] == b[..n] && a[n] < b[n]
    ensures StrLt(a, b)
    decreases n
  {
    if n > 0 {
      assert a[0] == a[..n][0] && b[0] == b[..n][0];
      assert a[1..][..n - 1] == a[..n][1..] && b[1..][..n - 1] == b[..n][1..];
      StrLtAt(a[1..], b[1..], n - 1);
    }
  }

  /** A sequence whose neighbours are ordered is ordered throughout. */
  lemma AscendingFromNeighbours(ks: seq<string>)
    requires forall i :: 0 <= i < |ks| - 1 ==> StrLt(ks[i], ks[i + 1])
    ensures StrictlyAscending(ks)
  {
    forall i, j | 0 <= i < j < |ks|
      ensures StrLt(ks[i], ks[j])
    {
      NeighboursChain(ks, i, j);
    }
  }

  lemma {:induction false} NeighboursChain(ks: seq<string>, i: nat, j: nat)
    requires i < j < |ks|
    requires forall i :: 0 <= i < |ks| - 1 ==> StrLt(ks[i], ks[i + 1])
    ensures StrLt(ks[i], ks[j])
    decreases j - i
  {
    if j > i + 1 {
      NeighboursChain(ks, i + 1, j);
      StrLtTransitive(ks[i], ks[i + 1], ks[j]);
    }
  }

  /** The members of a finite set of keys in ascending order: the key order
      PHP's `ksort` leaves behind for non-numeric string keys. */
  function SortKeys(ks: set<string>): (r: seq<string>)
    ensures StrictlyAscending(r)
    ensures |r| == |ks|
    ensures forall k :: k in ks <==> k in r
    decreases |ks|
  {
    if ks == {} then []
    else
      LeastKeyExists(ks);
      LeastKeyUnique(ks);
      var k :| IsLeastKey(k, ks);
      var rest := SortKeys(ks - {k});
      assert forall j :: j in rest ==> StrLt(k, j);
      [k] + rest
  }

  /** A strictly ascending sequence is determined by its elements; so the
      output of `SortKeys` is the only ascending listing of its key set. */
  lemma {:induction false} AscendingListingUnique(a: seq<string>, b: seq<string>)
    requires StrictlyAscending(a) && StrictlyAscending(b)
    requires forall k :: k in a <==> k in b
    ensures a == b
    decreases |a|
  {
    assert |a| > 0 ==> a[0] in a;
    assert |b| > 0 ==> b[0] in b;
    if |a| > 0 {
      if a[0] != b[0] {
        assert a[0] in b;
        assert b[0] in a;
        var i :| 0 <= i < |b| && b[i] == a[0];
        var j :| 0 <= j < |a| && a[j] == b[0];
        assert StrLt(b[0], a[0]);
        assert StrLt(a[0], b[0]);
        StrLtAsymmetric(a[0], b[0]);
      }
      forall k
        ensures k in a[1..] <==> k in b[1..]
      {
        if k in a[1..] {
          var i :| 1 <= i < |a| && a[i] == k;
          assert StrLt(a[0], k);
          StrLtIrreflexive(k);
          assert k in b;
        }
        if k in b[1..] {
          var i :| 1 <= i < |b| && b[i] == k;
          assert StrLt(b[0], k);
          StrLtIrreflexive(k);
          assert k in a;
        }
      }
      AscendingListingUnique(a[1..], b[1..]);
      assert a == [a[0]] + a[1..] && b == [b[0]] + b[1..];
    }
  }

  /* ---------- explode / implode ---------- */

  /** Index of the first `c` in `s`, or `|s|` when there is none. */
  function FindChar(s: string, c: char): (k: nat)
    ensures k <= |s|
    ensures k < |s| ==> s[k] == c
    ensures forall j :: 0 <= j < k ==> s[j] != c
  {
    if |s| == 0 then 0
    else if s[0] == c then 0
    else 1 + FindChar(s[1..], c)
  }

  /** PHP `explode(sep, s)`: the pieces between separators, at least one. */
  function Split(s: string, sep: char): (parts: seq<string>)
    ensures |parts| >= 1
    ensures forall i :: 0 <= i < |parts| ==> sep !in parts[i]
    ensures parts[0] == s[..FindChar(s, sep)]
    decreases |s|
  {
    var k := FindChar(s, sep);
    if k == |s| then [s]
    else [s[..k]] + Split(s[k + 1..], sep)
  }

  /** PHP `implode(sep, parts)`. */
  function Join(parts: seq<string>, sep: char): string
  {
    if |parts| == 0 then ""
    else if |parts| == 1 then parts[0]
    else parts[0] + [sep] + Join(parts[1..], sep)
  }

  /** Joining the pieces of a split restores the original string. */
  lemma {:induction false} JoinSplit(s: string, sep: char)
    ensures Join(Split(s, sep), sep) == s
    decreases |s|
  {
    var k := FindChar(s, sep);
    if k < |s| {
      var head, tail := s[..k], s[k + 1..];
      JoinSplit(tail, sep);
      SplitAtFirst(s, sep);
      JoinCons(head, Split(tail, sep), sep);
      Reassemble(s, k);
    } else {
      assert Split(s, sep) == [s];
    }
  }

  lemma SplitAtFirst(s: string, sep: char)
    requires FindChar(s, sep) < |s|
    ensures Split(s, sep) == [s[..FindChar(s, sep)]] + Split(s[FindChar(s, sep) + 1..], sep)
  {
  }

  lemma Reassemble(s: string, k: nat)
    requires k < |s|
    ensures s == s[..k] + [s[k]] + s[k + 1..]
  {
  }

  lemma JoinCons(head: string, rest: seq<string>, sep: char)
    requires |rest| >= 1
    ensures Join([head] + rest, sep) == head + [sep] + Join(rest, sep)
  {
    assert ([head] + rest)[1..] == rest;
  }

  /** Splitting a join of separator-free pieces gives the pieces back. */
  lemma {:induction false} SplitJoin(parts: seq<string>, sep: char)
    requires |parts| >= 1
    requires forall i :: 0 <= i < |parts| ==> sep !in parts[i]
    ensures Split(Join(parts, sep), sep) == parts
    decreases |parts|
  {
    var head := parts[0];
    assert sep !in head;
    if |parts| == 1 {
      FindCharAbsent(head, sep);
    } else {
      var rest := Join(parts[1..], sep);
      assert Join(parts, sep) == head + [sep] + rest;
      SplitAfterPiece(head, sep, rest);
      SplitJoin(parts[1..], sep);
      assert parts == [head] + parts[1..];
    }
  }

  /** Without `c` in `s`, the search runs to the end. */
  lemma FindCharAbsent(s: string, c: char)
    requires c !in s
    ensures FindChar(s, c) == |s|
  {
    assert forall j :: 0 <= j < |s| ==> s[j] in s;
  }

  /** A separator-free piece, the separator, and the rest split into the
      piece followed by the pieces of the rest. */
  lemma SplitAfterPiece(head: string, sep: char, rest: string)
    requires sep !in head
    ensures Split(head + [sep] + rest, sep) == [head] + Split(rest, sep)
  {
    var s := head + [sep] + rest;
    var k := FindChar(s, sep);
    assert s[|head|] == sep;
    assert forall j :: 0 <= j < |head| ==> s[j] == head[j] && head[j] in head;
    assert k == |head|;
    assert s[..k] == head;
    assert s[k + 1..] == rest;
  }

  /** Everything after the first separator is the join of the later pieces. */
  lemma {:induction false} SplitTail(s: string, sep: char)
    requires FindChar(s, sep) < |s|
    ensures |Split(s, sep)| >= 2
    ensures Join(Split(s, sep)[1..], sep) == s[FindChar(s, sep) + 1..]
  {
    var k := FindChar(s, sep);
    assert Split(s, sep)[1..] == Split(s[k + 1..], sep);
    JoinSplit(s[k + 1..], sep);
  }
}
