/** Strings as the explorer treats them: SQLite's LIKE with ASCII case folding,
    Python's str.split and str.join, and the byte-wise (code point) ordering that
    both SQLite's ORDER BY and pandas' groupby apply to text columns. */
module Text {

  datatype Option<T> = None | Some(value: T)

  // ---------------------------------------------------------------------------
  // ASCII case folding and SQLite LIKE
  // ---------------------------------------------------------------------------

  /** SQLite's built-in LIKE folds only the 26 ASCII letters. */
  function FoldChar(c: char): char
  {
    if 'A' <= c <= 'Z' then (c as int + 32) as char else c
  }

  predicate NoWildcards(t: string)
  {
    forall k :: 0 <= k < |t| ==> t[k] != '%' && t[k] != '_'
  }

  /** SQLite's LIKE without an ESCAPE clause: '%' matches any run of characters,
      '_' exactly one character, anything else one character up to ASCII case. */
  predicate Like(s: string, p: string)
    decreases |s| + |p|
  {
    if |p| == 0 then |s| == 0
    else if p[0] == '%' then Like(s, p[1..]) || (|s| > 0 && Like(s[1..], p))
    else |s| > 0 && (p[0] == '_' || FoldChar(s[0]) == FoldChar(p[0])) && Like(s[1..], p[1..])
  }

  /** t is a prefix of x up to ASCII case. */
  predicate FoldedPrefix(t: string, x: string)
  {
    |t| <= |x| && forall k :: 0 <= k < |t| ==> FoldChar(t[k]) == FoldChar(x[k])
  }

  /** t occurs in s up to ASCII case. */
  predicate ContainsFolded(s: string, t: string)
  {
    exists i :: 0 <= i <= |s| && FoldedPrefix(t, s[i..])
  }

  lemma {:induction false} PercentMatchesAll(s: string)
    ensures Like(s, "%")
  {
    assert "%"[1..] == "";
    if |s| > 0 {
      PercentMatchesAll(s[1..]);
    }
  }

  lemma {:induction false} LiteralThenPercent(x: string, t: string)
    requires NoWildcards(t)
    ensures Like(x, t + "%") <==> FoldedPrefix(t, x)
  {
    var p := t + "%";
    if |t| == 0 {
      assert p == "%";
      PercentMatchesAll(x);
    } else {
      assert p[0] == t[0] && p[1..] == t[1..] + "%";
      assert NoWildcards(t[1..]) by {
        forall k | 0 <= k < |t[1..]| ensures t[1..][k] != '%' && t[1..][k] != '_' {
          assert t[1..][k] == t[k + 1];
        }
      }
      if |x| > 0 {
        LiteralThenPercent(x[1..], t[1..]);
        if FoldedPrefix(t, x) {
          forall k | 0 <= k < |t[1..]| ensures FoldChar(t[1..][k]) == FoldChar(x[1..][k]) {
            assert t[1..][k] == t[k + 1] && x[1..][k] == x[k + 1];
          }
        }
        if FoldChar(x[0]) == FoldChar(t[0]) && FoldedPrefix(t[1..], x[1..]) {
          forall k | 0 <= k < |t| ensures FoldChar(t[k]) == FoldChar(x[k]) {
            if k > 0 {
              assert t[1..][k - 1] == t[k] && x[1..][k - 1] == x[k];
            }
          }
        }
      }
    }
  }

  lemma {:induction false} LeadingPercent(s: string, q: string)
    ensures Like(s, "%" + q) <==> exists i :: 0 <= i <= |s| && Like(s[i..], q)
  {
    var p := "%" + q;
    assert p[0] == '%' && p[1..] == q;
    assert s[0..] == s;
    if |s| > 0 {
      LeadingPercent(s[1..], q);
      if Like(s[1..], p) {
        var i :| 0 <= i <= |s[1..]| && Like(s[1..][i..], q);
        assert s[1..][i..] == s[i + 1..];
      }
      if exists i :: 0 <= i <= |s| && Like(s[i..], q) {
        var i :| 0 <= i <= |s| && Like(s[i..], q);
        if i > 0 {
          assert s[1..][i - 1..] == s[i..];
        }
      }
    }
  }

  /** The search pattern "%text%" matches exactly the terms that contain text
      up to ASCII case, when text itself holds no wildcard. */
  lemma LikeIsFoldedSubstring(s: string, t: string)
    requires NoWildcards(t)
    ensures Like(s, "%" + t + "%") <==> ContainsFolded(s, t)
  {
    assert "%" + t + "%" == "%" + (t + "%");
    LeadingPercent(s, t + "%");
    forall i | 0 <= i <= |s|
      ensures Like(s[i..], t + "%") <==> FoldedPrefix(t, s[i..])
    {
      LiteralThenPercent(s[i..], t);
    }
  }

  // ---------------------------------------------------------------------------
  // Python's str.split, str.rsplit and str.join
  // ---------------------------------------------------------------------------

  predicate OccursAt(s: string, sep: string, j: int)
  {
    0 <= j && j + |sep| <= |s| && s[j..j + |sep|] == sep
  }

  predicate Contains(s: string, sep: string)
  {
    exists j :: 0 <= j <= |s| && OccursAt(s, sep, j)
  }

  /** The first occurrence of sep in s at or after from. */
  function IndexFrom(s: string, sep: string, from: nat): (r: Option<nat>)
    ensures r.Some? ==> from <= r.value && OccursAt(s, sep, r.value)
    ensures r.Some? ==> forall j :: from <= j < r.value ==> !OccursAt(s, sep, j)
    ensures r.None? ==> forall j :: from <= j ==> !OccursAt(s, sep, j)
    decreases |s| - from
  {
    if from + |sep| > |s| then None
    else if s[from..from + |sep|] == sep then Some(from)
    else IndexFrom(s, sep, from + 1)
  }

  /** The last occurrence of sep in s at or before upto. */
  function LastIndexUpTo(s: string, sep: string, upto: int): (r: Option<nat>)
    ensures r.Some? ==> r.value <= upto && OccursAt(s, sep, r.value)
    ensures r.Some? ==> forall j :: r.value < j <= upto ==> !OccursAt(s, sep, j)
    ensures r.None? ==> forall j :: j <= upto ==> !OccursAt(s, sep, j)
    decreases upto + 1
  {
    if upto < 0 then None
    else if OccursAt(s, sep, upto) then Some(upto)
    else LastIndexUpTo(s, sep, upto - 1)
  }

  /** s.split(sep): the pieces between the non-overlapping occurrences of sep,
      found left to right. */
  function Split(s: string, sep: string): (parts: seq<string>)
    requires |sep| > 0
    ensures |parts| >= 1
    decreases |s|
  {
    match IndexFrom(s, sep, 0)
    case None => [s]
    case Some(i) => [s[..i]] + Split(s[i + |sep|..], sep)
  }

  /** sep.join(parts). */
  function Join(sep: string, parts: seq<string>): string
  {
    if |parts| == 0 then ""
    else if |parts| == 1 then parts[0]
    else parts[0] + sep + Join(sep, parts[1..])
  }

  /** The first occurrence is the one with no occurrence before it. */
  lemma IndexFromIsFirst(s: string, sep: string, i: nat)
    requires OccursAt(s, sep, i)
    requires forall j :: 0 <= j < i ==> !OccursAt(s, sep, j)
    ensures IndexFrom(s, sep, 0) == Some(i)
  {
  }

  /** A string without the separator splits to itself. */
  lemma NoOccurrenceSplitsToItself(s: string, sep: string)
    requires |sep| > 0
    requires !Contains(s, sep)
    ensures Split(s, sep) == [s]
  {
    assert forall j :: 0 <= j <= |s| ==> !OccursAt(s, sep, j);
  }

  /** The split cuts at the first occurrence of the separator and splits the
      rest again. */
  lemma SplitCutsAtFirstOccurrence(s: string, sep: string, n: nat)
    requires |sep| > 0
    requires OccursAt(s, sep, n)
    requires forall j :: 0 <= j < n ==> !OccursAt(s, sep, j)
    ensures Split(s, sep) == [s[..n]] + Split(s[n + |sep|..], sep)
  {
    IndexFromIsFirst(s, sep, n);
  }

  /** A split has more than one piece exactly when the separator occurs. */
  lemma SplitManyPiecesIffContains(s: string, sep: string)
    requires |sep| > 0
    ensures Contains(s, sep) <==> |Split(s, sep)| > 1
  {
    var r := IndexFrom(s, sep, 0);
    if Contains(s, sep) {
      var j :| 0 <= j <= |s| && OccursAt(s, sep, j);
      assert r.Some?;
    } else {
      NoOccurrenceSplitsToItself(s, sep);
    }
  }

  /** Joining the pieces with the separator gives back the string. */
  lemma {:induction false} SplitJoin(s: string, sep: string)
    requires |sep| > 0
    ensures Join(sep, Split(s, sep)) == s
    decreases |s|
  {
    match IndexFrom(s, sep, 0)
    case None =>
    case Some(i) =>
      var rest := s[i + |sep|..];
      SplitJoin(rest, sep);
      JoinCons(sep, s[..i], Split(rest, sep));
      AroundOccurrence(s, sep, i);
  }

  lemma JoinCons(sep: string, head: string, tail: seq<string>)
    requires |tail| > 0
    ensures Join(sep, [head] + tail) == head + sep + Join(sep, tail)
  {
    assert ([head] + tail)[1..] == tail;
  }

  /** A string is what comes before an occurrence, the occurrence, and what
      comes after it. */
  lemma AroundOccurrence(s: string, sep: string, i: int)
    requires OccursAt(s, sep, i)
    ensures s == s[..i] + sep + s[i + |sep|..]
  {
    assert s == s[..i] + s[i..i + |sep|] + s[i + |sep|..];
  }

  /** No piece holds the separator. */
  lemma {:induction false} SplitPiecesHaveNoSeparator(s: string, sep: string)
    requires |sep| > 0
    ensures forall k :: 0 <= k < |Split(s, sep)| ==> !Contains(Split(s, sep)[k], sep)
    decreases |s|
  {
    match IndexFrom(s, sep, 0)
    case None =>
      assert Split(s, sep) == [s];
    case Some(i) =>
      var rest := s[i + |sep|..];
      SplitPiecesHaveNoSeparator(rest, sep);
      var head := s[..i];
      forall j | 0 <= j <= |head| ensures !OccursAt(head, sep, j) {
        if j + |sep| <= |head| {
          assert !OccursAt(s, sep, j);
          assert head[j..j + |sep|] == s[j..j + |sep|];
        }
      }
      var parts := Split(s, sep);
      assert parts == [head] + Split(rest, sep);
      forall k | 0 <= k < |parts| ensures !Contains(parts[k], sep) {
        if k > 0 {
          assert parts[k] == Split(rest, sep)[k - 1];
        }
      }
  }

  // ---------------------------------------------------------------------------
  // Text ordering
  // ---------------------------------------------------------------------------

  /** Lexicographic order on code points, which is SQLite's BINARY collation on
      UTF-8 and Python's string comparison. */
  predicate StrLe(a: string, b: string)
    decreases |a|
  {
    |a| == 0 || (|b| > 0 && (a[0] < b[0] || (a[0] == b[0] && StrLe(a[1..], b[1..]))))
  }

  predicate StrLt(a: string, b: string)
  {
    StrLe(a, b) && a != b
  }

  lemma {:induction false} StrLeReflexive(a: string)
    ensures StrLe(a, a)
  {
    if |a| > 0 {
      StrLeReflexive(a[1..]);
    }
  }

  lemma {:induction false} StrLeAntisymmetric(a: string, b: string)
    requires StrLe(a, b) && StrLe(b, a)
    ensures a == b
  {
    if |a| > 0 && |b| > 0 {
      StrLeAntisymmetric(a[1..], b[1..]);
      assert a == [a[0]] + a[1..] && b == [b[0]] + b[1..];
    }
  }

  lemma {:induction false} StrLeTransitive(a: string, b: string, c: string)
    requires StrLe(a, b) && StrLe(b, c)
    ensures StrLe(a, c)
  {
    if |a| > 0 && |b| > 0 && |c| > 0 && a[0] == b[0] == c[0] {
      StrLeTransitive(a[1..], b[1..], c[1..]);
    }
  }

  lemma {:induction false} StrLeTotal(a: string, b: string)
    ensures StrLe(a, b) || StrLe(b, a)
  {
    if |a| > 0 && |b| > 0 && a[0] == b[0] {
      StrLeTotal(a[1..], b[1..]);
    }
  }

  /** Relationship groups are text, so group "10" comes before group "2". */
  lemma GroupsOrderAsText()
    ensures StrLt("10", "2") && !StrLe("2", "10")
  {
  }

  predicate StrictlySorted(s: seq<string>)
  {
    forall i, j :: 0 <= i < j < |s| ==> StrLt(s[i], s[j])
  }

  /** Inserts k into a strictly sorted sequence unless it is already there. */
  function InsertDistinct(k: string, s: seq<string>): seq<string>
  {
    if |s| == 0 then [k]
    else if k == s[0] then s
    else if StrLe(k, s[0]) then [k] + s
    else [s[0]] + InsertDistinct(k, s[1..])
  }

  /** The distinct values of keys in ascending order: the keys pandas' groupby
      visits. */
  function SortedDistinct(keys: seq<string>): seq<string>
  {
    if |keys| == 0 then [] else InsertDistinct(keys[0], SortedDistinct(keys[1..]))
  }

  lemma {:induction false} InsertDistinctSpec(k: string, s: seq<string>)
    requires StrictlySorted(s)
    ensures StrictlySorted(InsertDistinct(k, s))
    ensures forall x :: x in InsertDistinct(k, s) <==> x == k || x in s
  {
    if |s| > 0 && k != s[0] && !StrLe(k, s[0]) {
      var rest := InsertDistinct(k, s[1..]);
      assert StrictlySorted(s[1..]) by {
        forall i, j | 0 <= i < j < |s[1..]| ensures StrLt(s[1..][i], s[1..][j]) {
          assert s[1..][i] == s[i + 1] && s[1..][j] == s[j + 1];
        }
      }
      InsertDistinctSpec(k, s[1..]);
      StrLeTotal(k, s[0]);
      var r := [s[0]] + rest;
      forall i, j | 0 <= i < j < |r| ensures StrLt(r[i], r[j]) {
        if i == 0 {
          assert r[j] in rest;
          if r[j] != k {
            var m :| 0 <= m < |s[1..]| && s[1..][m] == r[j];
            assert s[m + 1] == r[j];
          }
        } else {
          assert r[i] == rest[i - 1] && r[j] == rest[j - 1];
        }
      }
    } else if |s| > 0 && k != s[0] {
      var r := [k] + s;
      forall i, j | 0 <= i < j < |r| ensures StrLt(r[i], r[j]) {
        if i == 0 {
          if j > 1 {
            assert StrLt(s[0], s[j - 1]);
            StrLeTransitive(k, s[0], s[j - 1]);
            if k == s[j - 1] {
              StrLeAntisymmetric(k, s[0]);
            }
          }
        } else {
          assert r[i] == s[i - 1] && r[j] == s[j - 1];
        }
      }
    }
  }

  /** The group keys are strictly ascending (so each appears once) and are
      exactly the values present. */
  lemma {:induction false} SortedDistinctSpec(keys: seq<string>)
    ensures StrictlySorted(SortedDistinct(keys))
    ensures forall x :: x in SortedDistinct(keys) <==> x in keys
  {
    if |keys| > 0 {
      SortedDistinctSpec(keys[1..]);
      InsertDistinctSpec(keys[0], SortedDistinct(keys[1..]));
      assert keys == [keys[0]] + keys[1..];
    }
  }
}
