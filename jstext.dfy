/** The JavaScript string operations the report relies on, template-literal
    evaluation (`Concat`) and `Array.prototype.join`, together with
    `String.prototype.split` (the inverse of `join`, used to state what a
    reader can recover from a joined list) and the predicates `StartsWith`,
    `EndsWith` and `OccursAt`, which only state properties of strings. */
module JsText {

  /** The summed length of all the strings in `parts`. */
  function TotalLength(parts: seq<string>): nat
  {
    if parts == [] then 0 else |parts[0]| + TotalLength(parts[1..])
  }

  /** `s.startsWith(t)`. */
  predicate StartsWith(s: string, t: string)
  {
    |t| <= |s| && s[..|t|] == t
  }

  /** `s.endsWith(t)`. */
  predicate EndsWith(s: string, t: string)
  {
    |t| <= |s| && s[|s| - |t|..] == t
  }

  /** `t` occurs in `s` starting at index `k`. */
  predicate OccursAt(s: string, t: string, k: nat)
  {
    k + |t| <= |s| && s[k..k + |t|] == t
  }

  /** Each character of an occurrence is the matching character of the whole. */
  lemma OccursAtChar(s: string, t: string, k: nat, m: nat)
    requires OccursAt(s, t, k) && m < |t|
    ensures s[k + m] == t[m]
  {
    assert s[k..k + |t|][m] == s[k + m];
  }

  /** The middle of a three-part concatenation occurs right after the first part. */
  lemma OccursInMiddle(p: string, t: string, q: string)
    ensures OccursAt(p + t + q, t, |p|)
  {
    assert (p + t + q)[|p|..|p| + |t|] == t;
  }

  /** An occurrence inside an occurrence is an occurrence. */
  lemma OccursWithin(s: string, t: string, u: string, i: nat, j: nat)
    requires OccursAt(s, t, i) && OccursAt(t, u, j)
    ensures OccursAt(s, u, i + j)
  {
    forall m | 0 <= m < |u|
      ensures s[i + j..i + j + |u|][m] == u[m]
    {
      assert u[m] == t[j..j + |u|][m] == t[j + m];
      assert t[j + m] == s[i..i + |t|][j + m] == s[i + j + m];
    }
    assert s[i + j..i + j + |u|] == u;
  }

  /** The pieces one after the other: how a template literal evaluates its
      literal runs and substitutions. */
  function Concat(parts: seq<string>): string
  {
    if parts == [] then "" else parts[0] + Concat(parts[1..])
  }

  /** Concatenating two lists of pieces concatenates their results. */
  lemma {:induction false} ConcatAppend(a: seq<string>, b: seq<string>)
    ensures Concat(a + b) == Concat(a) + Concat(b)
  {
    if a != [] {
      assert (a + b)[1..] == a[1..] + b;
      ConcatAppend(a[1..], b);
    } else {
      assert a + b == b;
    }
  }

  /** One piece concatenates to itself. */
  lemma Concat1(a: string)
    ensures Concat([a]) == a
  {
    assert [a][1..] == [];
    assert a + "" == a;
  }

  /** Three pieces concatenate to their sum. */
  lemma Concat3(a: string, b: string, c: string)
    ensures Concat([a, b, c]) == a + b + c
  {
    assert [a, b, c][1..] == [b, c];
    assert [b, c][1..] == [c];
    Concat1(c);
    assert a + (b + c) == a + b + c;
  }

  /** Three lists of pieces concatenate to the three results in a row. */
  lemma ConcatAppend3(a: seq<string>, b: seq<string>, c: seq<string>)
    ensures Concat(a + b + c) == Concat(a) + Concat(b) + Concat(c)
  {
    ConcatAppend(a + b, c);
    ConcatAppend(a, b);
  }

  /** Each run of consecutive pieces occurs in the whole right after the
      pieces before it. */
  lemma ConcatSliceAt(parts: seq<string>, i: nat, j: nat)
    requires i <= j <= |parts|
    ensures OccursAt(Concat(parts), Concat(parts[i..j]), |Concat(parts[..i])|)
  {
    var before, run, after := parts[..i], parts[i..j], parts[j..];
    assert parts == before + run + after;
    ConcatAppend3(before, run, after);
    OccursInMiddle(Concat(before), Concat(run), Concat(after));
  }

  /** Each piece occurs in the whole right after the pieces before it. */
  lemma PieceAt(parts: seq<string>, i: nat)
    requires i < |parts|
    ensures OccursAt(Concat(parts), parts[i], |Concat(parts[..i])|)
  {
    assert parts[i..i + 1] == [parts[i]];
    Concat1(parts[i]);
    ConcatSliceAt(parts, i, i + 1);
  }

  /** Three consecutive pieces occur together, as their sum. */
  lemma RunAt(parts: seq<string>, i: nat, a: string, b: string, c: string)
    requires i + 3 <= |parts| && parts[i] == a && parts[i + 1] == b && parts[i + 2] == c
    ensures OccursAt(Concat(parts), a + b + c, |Concat(parts[..i])|)
  {
    assert parts[i..i + 3] == [a, b, c];
    Concat3(a, b, c);
    ConcatSliceAt(parts, i, i + 3);
  }

  /** Taking one more piece appends it. */
  lemma PrefixConcatStep(parts: seq<string>, i: nat)
    requires i < |parts|
    ensures Concat(parts[..i + 1]) == Concat(parts[..i]) + parts[i]
  {
    assert parts[..i + 1] == parts[..i] + [parts[i]];
    ConcatAppend(parts[..i], [parts[i]]);
    Concat1(parts[i]);
  }

  /** A later piece starts no earlier than the end of an earlier one. */
  lemma PrefixLengthGrows(parts: seq<string>, i: nat, j: nat)
    requires i < j <= |parts|
    ensures |Concat(parts[..i])| + |parts[i]| <= |Concat(parts[..j])|
  {
    assert parts[..j] == parts[..i + 1] + parts[i + 1..j];
    ConcatAppend(parts[..i + 1], parts[i + 1..j]);
    PrefixConcatStep(parts, i);
  }

  /** The last piece ends the whole. */
  lemma LastPieceEnds(parts: seq<string>)
    requires parts != []
    ensures |Concat(parts[..|parts| - 1])| + |parts[|parts| - 1]| == |Concat(parts)|
  {
    var n := |parts|;
    PrefixConcatStep(parts, n - 1);
    assert parts[..n] == parts;
  }

  /** When a piece ends with a line feed, the next piece starts a line. */
  lemma StartsLine(parts: seq<string>, i: nat)
    requires 0 < i <= |parts| && parts[i - 1] != [] && parts[i - 1][|parts[i - 1]| - 1] == '\n'
    ensures 0 < |Concat(parts[..i])| <= |Concat(parts)|
    ensures Concat(parts)[|Concat(parts[..i])| - 1] == '\n'
  {
    var k, p := |Concat(parts[..i - 1])|, parts[i - 1];
    PieceAt(parts, i - 1);
    PrefixConcatStep(parts, i - 1);
    assert Concat(parts)[k + |p| - 1] == Concat(parts)[k..k + |p|][|p| - 1];
    ConcatSliceAt(parts, 0, i);
    assert parts[0..i] == parts[..i] && parts[..0] == [];
  }

  /** `parts.join(sep)`: the parts in order with `sep` between neighbours;
      the empty array joins to the empty string. */
  function Join(parts: seq<string>, sep: string): (r: string)
    ensures parts == [] ==> r == ""
    ensures parts != [] ==> |r| == TotalLength(parts) + (|parts| - 1) * |sep|
  {
    if parts == [] then ""
    else if |parts| == 1 then parts[0]
    else parts[0] + sep + Join(parts[1..], sep)
  }

  /** Two parts join to the first, the separator and the second. */
  lemma JoinPair(a: string, b: string, sep: string)
    ensures Join([a, b], sep) == a + sep + b
  {
    assert [a, b][1..] == [b];
  }

  /** `s.split(sep)` for a one-character separator: the maximal separator-free
      pieces of `s`, so there is always at least one piece. */
  function Split(s: string, sep: char): (r: seq<string>)
    ensures |r| >= 1
  {
    if s == [] then [""]
    else
      var rest := Split(s[1..], sep);
      if s[0] == sep then [""] + rest else [[s[0]] + rest[0]] + rest[1..]
  }

  /** A string without the separator splits into itself alone. */
  lemma {:induction false} SplitWithoutSeparator(a: string, sep: char)
    requires sep !in a
    ensures Split(a, sep) == [a]
  {
    if a != [] {
      assert sep !in a[1..];
      SplitWithoutSeparator(a[1..], sep);
      assert a[0] != sep;
      assert [a[0]] + a[1..] == a;
    }
  }

  /** The first separator ends the first piece. */
  lemma {:induction false} SplitAtFirstSeparator(a: string, sep: char, rest: string)
    requires sep !in a
    ensures Split(a + [sep] + rest, sep) == [a] + Split(rest, sep)
  {
    var s := a + [sep] + rest;
    if a == [] {
      assert s[1..] == rest;
    } else {
      assert s[1..] == a[1..] + [sep] + rest;
      assert sep !in a[1..];
      SplitAtFirstSeparator(a[1..], sep, rest);
      assert [s[0]] + a[1..] == a;
    }
  }

  /** A part holding the separator once splits into the two texts around it. */
  lemma SplitInTwo(a: string, sep: char, b: string)
    requires sep !in a && sep !in b
    ensures Split(a + [sep] + b, sep) == [a, b]
  {
    SplitAtFirstSeparator(a, sep, b);
    SplitWithoutSeparator(b, sep);
  }

  /** Splitting a joined list recovers it, provided the list is not empty and
      no part contains the separator. */
  lemma {:induction false} SplitJoin(parts: seq<string>, sep: char)
    requires parts != []
    requires forall p :: p in parts ==> sep !in p
    ensures Split(Join(parts, [sep]), sep) == parts
  {
    if |parts| == 1 {
      SplitWithoutSeparator(parts[0], sep);
    } else {
      assert parts[0] in parts;
      assert forall p :: p in parts[1..] ==> p in parts;
      SplitJoin(parts[1..], sep);
      SplitAtFirstSeparator(parts[0], sep, Join(parts[1..], [sep]));
      assert parts == [parts[0]] + parts[1..];
    }
  }
}
