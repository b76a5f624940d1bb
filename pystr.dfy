/** The Python builtins that the tag resolver relies on: `str.split`, `str.join`
    and `str.replace` for one-character arguments, the ordering of `str` values,
    `sorted(..., reverse=True)` on a list of strings and `list.reverse()`. */
module PyStr {

  /** `s.split(sep)`: every occurrence of `sep` cuts, empty pieces are kept,
      and there is always at least one piece. */
  function Split(s: string, sep: char): (parts: seq<string>)
    ensures |parts| >= 1
    ensures forall k :: 0 <= k < |parts| ==> sep !in parts[k]
    decreases |s|
  {
    if s == [] then [""]
    else
      var rest := Split(s[1..], sep);
      if s[0] == sep then [""] + rest
      else [[s[0]] + rest[0]] + rest[1..]
  }

  /** `sep.join(parts)`: no pieces give the empty string, and otherwise the
      result starts with the first piece. */
  function Join(parts: seq<string>, sep: char): (r: string)
    ensures |parts| == 0 ==> r == ""
    ensures |parts| >= 1 ==> parts[0] <= r
    decreases |parts|
  {
    if |parts| == 0 then ""
    else if |parts| == 1 then parts[0]
    else parts[0] + [sep] + Join(parts[1..], sep)
  }

  /** Joining a piece in front of one or more pieces puts a separator between. */
  lemma JoinCons(first: string, rest: seq<string>, sep: char)
    requires |rest| >= 1
    ensures Join([first] + rest, sep) == first + [sep] + Join(rest, sep)
  {
    assert ([first] + rest)[1..] == rest;
  }

  /** Prepending a character to the first piece prepends it to the join. */
  lemma JoinExtendFirst(c: char, parts: seq<string>, sep: char)
    requires |parts| >= 1
    ensures Join([[c] + parts[0]] + parts[1..], sep) == [c] + Join(parts, sep)
  {
    if |parts| == 1 {
      assert [[c] + parts[0]] + parts[1..] == [[c] + parts[0]];
    } else {
      JoinCons([c] + parts[0], parts[1..], sep);
      JoinCons(parts[0], parts[1..], sep);
      assert parts == [parts[0]] + parts[1..];
    }
  }

  /** Joining the pieces of a split gives back the string. */
  lemma {:induction false} JoinOfSplit(s: string, sep: char)
    ensures Join(Split(s, sep), sep) == s
    decreases |s|
  {
    if s != [] {
      var rest := Split(s[1..], sep);
      JoinOfSplit(s[1..], sep);
      assert s == [s[0]] + s[1..];
      if s[0] == sep {
        JoinCons("", rest, sep);
      } else {
        JoinExtendFirst(s[0], rest, sep);
      }
    }
  }

  /** Splitting a string that starts with a separator-free piece `p`. */
  lemma {:induction false} SplitAfterPiece(p: string, tail: string, sep: char)
    requires sep !in p
    ensures Split(p + tail, sep) == [p + Split(tail, sep)[0]] + Split(tail, sep)[1..]
    decreases |p|
  {
    if p == [] {
      var parts := Split(tail, sep);
      assert p + tail == tail;
      assert p + parts[0] == parts[0];
      assert parts == [parts[0]] + parts[1..];
    } else {
      var parts := Split(tail, sep);
      SplitAfterPiece(p[1..], tail, sep);
      var rest := Split(p[1..] + tail, sep);
      assert rest[0] == p[1..] + parts[0] && rest[1..] == parts[1..];
      assert (p + tail)[0] == p[0] && (p + tail)[1..] == p[1..] + tail;
      assert Split(p + tail, sep) == [[p[0]] + rest[0]] + rest[1..];
      assert [p[0]] + (p[1..] + parts[0]) == p + parts[0];
    }
  }

  /** Splitting a join of separator-free pieces gives back the pieces. */
  lemma {:induction false} SplitOfJoin(parts: seq<string>, sep: char)
    requires |parts| >= 1
    requires forall k :: 0 <= k < |parts| ==> sep !in parts[k]
    ensures Split(Join(parts, sep), sep) == parts
    decreases |parts|
  {
    if |parts| == 1 {
      SplitAfterPiece(parts[0], "", sep);
      assert parts[0] + "" == parts[0];
    } else {
      var rest := parts[1..];
      SplitOfJoin(rest, sep);
      var tail := [sep] + Join(rest, sep);
      assert tail[1..] == Join(rest, sep);
      assert Split(tail, sep) == [""] + rest;
      SplitAfterPiece(parts[0], tail, sep);
      assert Join(parts, sep) == parts[0] + tail;
      assert Split(tail, sep)[0] == "" && Split(tail, sep)[1..] == rest;
      assert parts[0] + "" == parts[0];
      assert parts == [parts[0]] + rest;
    }
  }

  /** Splitting at the one separator between two separator-free strings. */
  lemma SplitOneSeparator(head: string, tail: string, sep: char)
    requires sep !in head && sep !in tail
    ensures Split(head + [sep] + tail, sep) == [head, tail]
  {
    SplitOfJoin([head, tail], sep);
    assert [head, tail][1..] == [tail];
    assert Join([head, tail], sep) == head + [sep] + tail;
  }

  /** A character absent from `s` is absent from every piece of its split. */
  lemma {:induction false} SplitAvoids(s: string, sep: char, c: char)
    requires c !in s
    ensures forall k :: 0 <= k < |Split(s, sep)| ==> c !in Split(s, sep)[k]
    decreases |s|
  {
    if s != [] {
      SplitAvoids(s[1..], sep, c);
      assert s == [s[0]] + s[1..];
    }
  }

  /** Joining with one more piece at the end. */
  lemma {:induction false} JoinAppend(parts: seq<string>, last: string, sep: char)
    requires |parts| >= 1
    ensures Join(parts + [last], sep) == Join(parts, sep) + [sep] + last
    decreases |parts|
  {
    if |parts| == 1 {
      assert parts + [last] == [parts[0], last];
      assert [parts[0], last][1..] == [last];
    } else {
      assert (parts + [last])[1..] == parts[1..] + [last];
      JoinAppend(parts[1..], last, sep);
    }
  }

  /** A character other than the separator occurs in a join only if it occurs in a piece. */
  lemma {:induction false} JoinAvoids(parts: seq<string>, sep: char, c: char)
    requires c != sep
    requires forall k :: 0 <= k < |parts| ==> c !in parts[k]
    ensures c !in Join(parts, sep)
    decreases |parts|
  {
    if |parts| > 1 {
      JoinAvoids(parts[1..], sep, c);
    }
  }

  /** `s.replace(a, b)` for one-character `a` and `b`. */
  function Replace(s: string, a: char, b: char): (r: string)
    ensures |r| == |s|
    ensures forall i :: 0 <= i < |s| ==> r[i] == (if s[i] == a then b else s[i])
    ensures a != b ==> a !in r
    decreases |s|
  {
    if s == [] then [] else [if s[0] == a then b else s[0]] + Replace(s[1..], a, b)
  }

  /** Replacing an absent character changes nothing. */
  lemma ReplaceAbsent(s: string, a: char, b: char)
    requires a !in s
    ensures Replace(s, a, b) == s
  {
    var r := Replace(s, a, b);
    forall i | 0 <= i < |s| ensures r[i] == s[i] {
      assert s[i] != a;
    }
  }

  /** Replacing distributes over concatenation. */
  lemma {:induction false} ReplaceConcat(x: string, y: string, a: char, b: char)
    ensures Replace(x + y, a, b) == Replace(x, a, b) + Replace(y, a, b)
    decreases |x|
  {
    if x != [] {
      ReplaceConcat(x[1..], y, a, b);
      assert (x + y)[1..] == x[1..] + y;
    }
  }

  /** Replacing the one `+` between two `+`-free strings. */
  lemma ReplaceOneSeparator(head: string, tail: string)
    requires '+' !in head && '+' !in tail
    ensures Replace(head + "+" + tail, '+', '.') == head + "." + tail
  {
    ReplaceConcat(head + "+", tail, '+', '.');
    ReplaceConcat(head, "+", '+', '.');
    ReplaceAbsent(head, '+', '.');
    ReplaceAbsent(tail, '+', '.');
    assert Replace("+", '+', '.') == ".";
  }

  /** The list after `list.reverse()`. */
  function Reversed<T>(s: seq<T>): (r: seq<T>)
    ensures |r| == |s|
    ensures forall k :: 0 <= k < |s| ==> r[k] == s[|s| - 1 - k]
    decreases |s|
  {
    if s == [] then [] else [s[|s| - 1]] + Reversed(s[..|s| - 1])
  }

  /** Reversing keeps the elements. */
  lemma ReversedSameElements<T>(s: seq<T>)
    ensures forall x :: x in s <==> x in Reversed(s)
  {
    var r := Reversed(s);
    forall x | x in s ensures x in r {
      var m :| 0 <= m < |s| && s[m] == x;
      assert r[|s| - 1 - m] == x;
    }
  }

  /** The first position holding `x`; a proof device for locating an element. */
  function Index<T(==)>(s: seq<T>, x: T): (i: nat)
    requires x in s
    ensures i < |s| && s[i] == x
    ensures forall j :: 0 <= j < i ==> s[j] != x
    decreases |s|
  {
    if s[0] == x then 0 else 1 + Index(s[1..], x)
  }

  /** Python's `a <= b` on `str`: code point by code point, and a proper
      prefix comes first. */
  predicate LexLe(a: string, b: string)
    ensures a <= b ==> LexLe(a, b)
    ensures a != [] && b == [] ==> !LexLe(a, b)
    ensures a != [] && b != [] && a[0] != b[0] ==> (LexLe(a, b) <==> a[0] < b[0])
    decreases |a|
  {
    a == [] || (b != [] && (a[0] < b[0] || (a[0] == b[0] && LexLe(a[1..], b[1..]))))
  }

  lemma {:induction false} LexLeReflexive(a: string)
    ensures LexLe(a, a)
    decreases |a|
  {
    if a != [] {
      LexLeReflexive(a[1..]);
    }
  }

  lemma {:induction false} LexLeTotal(a: string, b: string)
    ensures LexLe(a, b) || LexLe(b, a)
    decreases |a|
  {
    if a != [] && b != [] && a[0] == b[0] {
      LexLeTotal(a[1..], b[1..]);
    }
  }

  lemma {:induction false} LexLeAntisymmetric(a: string, b: string)
    requires LexLe(a, b) && LexLe(b, a)
    ensures a == b
    decreases |a|
  {
    if a != [] {
      LexLeAntisymmetric(a[1..], b[1..]);
      assert a == [a[0]] + a[1..] && b == [b[0]] + b[1..];
    }
  }

  lemma {:induction false} LexLeTransitive(a: string, b: string, c: string)
    requires LexLe(a, b) && LexLe(b, c)
    ensures LexLe(a, c)
    decreases |a|
  {
    if a != [] && a[0] == b[0] && b[0] == c[0] {
      LexLeTransitive(a[1..], b[1..], c[1..]);
    }
  }

  /** Every element is at least (in Python's `str` order) every element after it. */
  predicate Descending(s: seq<string>)
  {
    forall i, j :: 0 <= i < j < |s| ==> LexLe(s[j], s[i])
  }

  lemma AllAtMost(s: seq<string>, x: string)
    requires Descending(s) && |s| > 0 && LexLe(s[0], x)
    ensures forall j :: 0 <= j < |s| ==> LexLe(s[j], x)
  {
    forall j | 0 < j < |s| ensures LexLe(s[j], x) {
      LexLeTransitive(s[j], s[0], x);
    }
  }

  lemma AtMostHead(t: seq<string>, x: string, s: seq<string>)
    requires Descending(s) && |s| > 0 && LexLe(x, s[0])
    requires multiset(t) == multiset(s[1..]) + multiset{x}
    ensures forall j :: 0 <= j < |t| ==> LexLe(t[j], s[0])
  {
    forall j | 0 <= j < |t| ensures LexLe(t[j], s[0]) {
      assert t[j] in multiset(t);
      if t[j] != x {
        assert t[j] in multiset(s[1..]);
        var k :| 0 <= k < |s[1..]| && s[1..][k] == t[j];
        assert s[k + 1] == t[j];
      }
    }
  }

  /** Insertion of `x` into a descending list. */
  function InsertDescending(x: string, s: seq<string>): (r: seq<string>)
    requires Descending(s)
    ensures multiset(r) == multiset(s) + multiset{x}
    ensures Descending(r)
    decreases |s|
  {
    if s == [] then [x]
    else if LexLe(s[0], x) then
      AllAtMost(s, x);
      [x] + s
    else
      LexLeTotal(s[0], x);
      var t := InsertDescending(x, s[1..]);
      assert s == [s[0]] + s[1..];
      AtMostHead(t, x, s);
      [s[0]] + t
  }

  /** `sorted(s, reverse=True)`: the same strings, greatest first. */
  function SortedDescending(s: seq<string>): (r: seq<string>)
    ensures multiset(r) == multiset(s)
    ensures Descending(r)
    decreases |s|
  {
    if s == [] then []
    else
      assert s == [s[0]] + s[1..];
      InsertDescending(s[0], SortedDescending(s[1..]))
  }

  /** Two descending lists with the same elements start with the same element. */
  lemma SameHead(a: seq<string>, b: seq<string>)
    requires multiset(a) == multiset(b) && |a| > 0
    requires Descending(a) && Descending(b)
    ensures |b| > 0 && a[0] == b[0]
  {
    assert a[0] in multiset(b);
    var i :| 0 <= i < |b| && b[i] == a[0];
    assert b[0] in multiset(a);
    var j :| 0 <= j < |a| && a[j] == b[0];
    LexLeReflexive(a[0]);
    LexLeReflexive(b[0]);
    assert LexLe(a[j], a[0]);
    assert LexLe(b[i], b[0]);
    LexLeAntisymmetric(a[0], b[0]);
  }

  /** Any descending permutation of a list is the one `SortedDescending` gives:
      the sort is determined by its contract. */
  lemma {:induction false} DescendingPermutationUnique(a: seq<string>, b: seq<string>)
    requires multiset(a) == multiset(b)
    requires Descending(a) && Descending(b)
    ensures a == b
    decreases |a|
  {
    if a == [] {
      assert |multiset(b)| == 0;
    } else {
      SameHead(a, b);
      assert a == [a[0]] + a[1..] && b == [b[0]] + b[1..];
      assert multiset(a) == multiset{a[0]} + multiset(a[1..]);
      assert multiset(b) == multiset{b[0]} + multiset(b[1..]);
      assert multiset(a[1..]) == multiset(a) - multiset{a[0]};
      assert multiset(b[1..]) == multiset(b) - multiset{b[0]};
      DescendingPermutationUnique(a[1..], b[1..]);
    }
  }
}
