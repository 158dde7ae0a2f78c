/** The string operations the settings dialog and the server apply to colour lists:
    `uppercase()`, `split(" ")`, `trim()` and `joinToString(" ")`. */
module Words {

  const SPACE: char := ' '

  predicate IsLower(c: char) {
    'a' <= c <= 'z'
  }

  /** `Char.uppercase()` on the ASCII range: a–z become A–Z, everything else stays. */
  function UpperChar(c: char): (u: char)
    ensures !IsLower(u)
    ensures !IsLower(c) ==> u == c
  {
    if IsLower(c) then (c as int - 'a' as int + 'A' as int) as char else c
  }

  /** `String.uppercase()`, character by character. */
  function Uppercase(s: string): (u: string)
    ensures |u| == |s|
    ensures forall i :: 0 <= i < |s| ==> u[i] == UpperChar(s[i])
  {
    if s == [] then [] else [UpperChar(s[0])] + Uppercase(s[1..])
  }

  /** The whitespace `trim()` removes, on the ASCII range (Java's `isWhitespace`). */
  predicate IsWhitespace(c: char) {
    c == ' ' || ('\t' <= c <= '\U{0D}') || ('\U{1C}' <= c <= '\U{1F}')
  }

  function TrimStart(s: string): string
  {
    if s != [] && IsWhitespace(s[0]) then TrimStart(s[1..]) else s
  }

  function TrimEnd(s: string): string
  {
    if s != [] && IsWhitespace(s[|s| - 1]) then TrimEnd(s[..|s| - 1]) else s
  }

  /** `String.trim()`: leading and trailing whitespace removed. */
  function Trim(s: string): (t: string)
  {
    TrimEnd(TrimStart(s))
  }

  /** `s.split(" ")`: the pieces between separators, empty pieces included, so a string
      with k separators always gives k + 1 pieces. */
  function Split(s: string, sep: char): (r: seq<string>)
    ensures |r| > 0
    decreases |s|
  {
    if s == [] then [[]]
    else if s[0] == sep then [[]] + Split(s[1..], sep)
    else
      var rest := Split(s[1..], sep);
      [[s[0]] + rest[0]] + rest[1..]
  }

  /** `parts.joinToString(" ")`: the pieces with one separator between neighbours. */
  function Join(parts: seq<string>, sep: char): string
  {
    if parts == [] then []
    else if |parts| == 1 then parts[0]
    else parts[0] + [sep] + Join(parts[1..], sep)
  }

  predicate Avoids(s: string, sep: char) {
    forall i :: 0 <= i < |s| ==> s[i] != sep
  }

  /** No piece of a split contains the separator. */
  lemma {:induction false} SplitPiecesAvoid(s: string, sep: char)
    ensures forall k :: 0 <= k < |Split(s, sep)| ==> Avoids(Split(s, sep)[k], sep)
    decreases |s|
  {
    if s != [] {
      SplitPiecesAvoid(s[1..], sep);
    }
  }

  /** Joining the pieces of a split gives back the string. */
  lemma {:induction false} JoinSplit(s: string, sep: char)
    ensures Join(Split(s, sep), sep) == s
    decreases |s|
  {
    if s != [] {
      var rest := Split(s[1..], sep);
      JoinSplit(s[1..], sep);
      assert s == [s[0]] + s[1..];
      if s[0] == sep {
        assert Split(s, sep) == [[]] + rest;
      } else {
        var r := Split(s, sep);
        assert r == [[s[0]] + rest[0]] + rest[1..];
        if |rest| == 1 {
          assert Join(rest, sep) == rest[0];
          assert Join(r, sep) == [s[0]] + rest[0];
        } else {
          assert r[1..] == rest[1..];
          assert Join(rest, sep) == rest[0] + [sep] + Join(rest[1..], sep);
          assert Join(r, sep) == ([s[0]] + rest[0]) + [sep] + Join(rest[1..], sep);
        }
      }
    }
  }

  lemma {:induction false} SplitAvoiding(s: string, sep: char)
    requires Avoids(s, sep)
    ensures Split(s, sep) == [s]
    decreases |s|
  {
    if s != [] {
      SplitAvoiding(s[1..], sep);
      assert [s[0]] + s[1..] == s;
    }
  }

  lemma {:induction false} SplitAppend(a: string, sep: char, b: string)
    requires Avoids(a, sep)
    ensures Split(a + [sep] + b, sep) == [a] + Split(b, sep)
    decreases |a|
  {
    if a == [] {
      assert a + [sep] + b == [sep] + b;
      assert ([sep] + b)[1..] == b;
    } else {
      assert (a + [sep] + b)[1..] == a[1..] + [sep] + b;
      SplitAppend(a[1..], sep, b);
      assert [a[0]] + a[1..] == a;
    }
  }

  /** Splitting a join gives back the pieces, provided there is at least one piece and
      no piece contains the separator. */
  lemma {:induction false} SplitJoin(parts: seq<string>, sep: char)
    requires |parts| > 0
    requires forall k :: 0 <= k < |parts| ==> Avoids(parts[k], sep)
    ensures Split(Join(parts, sep), sep) == parts
    decreases |parts|
  {
    if |parts| == 1 {
      SplitAvoiding(parts[0], sep);
    } else {
      SplitJoin(parts[1..], sep);
      SplitAppend(parts[0], sep, Join(parts[1..], sep));
      assert parts == [parts[0]] + parts[1..];
    }
  }
  /** Text without lower-case letters is its own upper-case form. */
  lemma UppercaseUnchanged(s: string)
    requires forall i :: 0 <= i < |s| ==> !IsLower(s[i])
    ensures Uppercase(s) == s
  {
  }

  /** Upper-casing twice is upper-casing once. */
  lemma UppercaseIdempotent(s: string)
    ensures Uppercase(Uppercase(s)) == Uppercase(s)
  {
    UppercaseUnchanged(Uppercase(s));
  }

  /** Text without whitespace is its own trimmed form. */
  lemma TrimUnchanged(s: string)
    requires forall i :: 0 <= i < |s| ==> !IsWhitespace(s[i])
    ensures Trim(s) == s
  {
    if s != [] {
      assert TrimStart(s) == s;
    }
  }

  /** A join has no lower-case letter when neither the pieces nor the separator have one. */
  lemma {:induction false} JoinNoLower(parts: seq<string>, sep: char)
    requires !IsLower(sep)
    requires forall k, i :: 0 <= k < |parts| && 0 <= i < |parts[k]| ==> !IsLower(parts[k][i])
    ensures forall i :: 0 <= i < |Join(parts, sep)| ==> !IsLower(Join(parts, sep)[i])
    decreases |parts|
  {
    if |parts| > 1 {
      JoinNoLower(parts[1..], sep);
      var rest := Join(parts[1..], sep);
      forall i | 0 <= i < |Join(parts, sep)| ensures !IsLower(Join(parts, sep)[i]) {
        if i < |parts[0]| {
          assert Join(parts, sep)[i] == parts[0][i];
        } else if i > |parts[0]| {
          assert Join(parts, sep)[i] == rest[i - |parts[0]| - 1];
        }
      }
    }
  }

  /** Two separators in a row split off an empty piece, and never as the first piece. */
  lemma {:induction false} SplitEmptyPiece(s: string, sep: char, i: nat)
    requires i + 1 < |s| && s[i] == sep && s[i + 1] == sep
    ensures exists k :: 1 <= k < |Split(s, sep)| && Split(s, sep)[k] == []
    decreases i
  {
    var rest := Split(s[1..], sep);
    if i == 0 {
      assert s[1..][0] == sep;
      assert rest[0] == [];
      assert Split(s, sep)[1] == [];
    } else {
      SplitEmptyPiece(s[1..], sep, i - 1);
      var k :| 1 <= k < |rest| && rest[k] == [];
      if s[0] == sep {
        assert Split(s, sep)[k + 1] == [];
      } else {
        assert Split(s, sep)[k] == [];
      }
    }
  }
}
