/** Strings, with the operations of Go's `cmp`, `strconv` and `strings` packages that the program uses.
    A string is a sequence of code points; on valid UTF-8 their order is Go's byte order. */
module Text {
  datatype Option<+T> = None | Some(value: T)

  // ----- Order -----

  /** `cmp.Compare` on strings. */
  function Compare(a: string, b: string): int
  {
    if a == [] && b == [] then 0
    else if a == [] then -1
    else if b == [] then 1
    else if a[0] != b[0] then (if a[0] < b[0] then -1 else 1)
    else Compare(a[1..], b[1..])
  }

  /** Lexicographic order: a proper prefix, or the smaller character at the first difference. */
  ghost predicate Less(a: string, b: string)
  {
    || (a <= b && a != b)
    || (exists k :: 0 <= k < |a| && k < |b| && a[..k] == b[..k] && a[k] < b[k])
  }

  lemma {:induction false} CompareIsLexicographic(a: string, b: string)
    ensures Compare(a, b) < 0 <==> Less(a, b)
  {
    if a != [] && b != [] {
      if a[0] == b[0] {
        CompareIsLexicographic(a[1..], b[1..]);
        LessOfTails(a, b);
      } else {
        assert a[..0] == b[..0];
        if k :| 0 <= k < |a| && k < |b| && a[..k] == b[..k] && a[k] < b[k] {
          if k > 0 { SameFirst(a, b, k); }
        }
      }
    }
  }

  lemma SameFirst(a: string, b: string, k: nat)
    requires 0 < k <= |a| && k <= |b| && a[..k] == b[..k]
    ensures a[0] == b[0]
  {
    assert a[..k][0] == a[0] && b[..k][0] == b[0];
  }

  lemma LessOfTails(a: string, b: string)
    requires a != [] && b != [] && a[0] == b[0]
    ensures Less(a, b) <==> Less(a[1..], b[1..])
  {
    assert a == [a[0]] + a[1..] && b == [b[0]] + b[1..];
    if k :| 0 <= k < |a| && k < |b| && a[..k] == b[..k] && a[k] < b[k] {
      assert a[1..][..k - 1] == a[..k][1..] && b[1..][..k - 1] == b[..k][1..];
      assert a[1..][k - 1] < b[1..][k - 1];
    }
    if k :| 0 <= k < |a| - 1 && k < |b| - 1 && a[1..][..k] == b[1..][..k] && a[1..][k] < b[1..][k] {
      assert a[..k + 1] == [a[0]] + a[1..][..k] && b[..k + 1] == [b[0]] + b[1..][..k];
      assert a[k + 1] < b[k + 1];
    }
  }

  lemma {:induction false} CompareIsZeroOnlyWhenEqual(a: string, b: string)
    ensures Compare(a, b) == 0 <==> a == b
  {
    if a != [] && b != [] && a[0] == b[0] {
      CompareIsZeroOnlyWhenEqual(a[1..], b[1..]);
      assert a == [a[0]] + a[1..] && b == [b[0]] + b[1..];
    }
  }

  lemma {:induction false} CompareFlips(a: string, b: string)
    ensures Compare(a, b) == -Compare(b, a)
  {
    if a != [] && b != [] && a[0] == b[0] {
      CompareFlips(a[1..], b[1..]);
    }
  }

  lemma {:induction false} CompareIsTransitive(a: string, b: string, c: string)
    requires Compare(a, b) <= 0 && Compare(b, c) <= 0
    ensures Compare(a, c) <= 0
    ensures Compare(a, c) == 0 ==> a == b == c
  {
    if a != [] && a[0] == b[0] == c[0] {
      CompareIsTransitive(a[1..], b[1..], c[1..]);
      assert a == [a[0]] + a[1..] && b == [b[0]] + b[1..] && c == [c[0]] + c[1..];
    } else if a == [] && c == [] {
      assert b == [];
    }
  }

  // ----- Decimal numbers -----

  predicate IsDigit(c: char) { '0' <= c <= '9' }

  function Digit(d: nat): char
    requires d < 10
  {
    ('0' as int + d) as char
  }

  function DigitValue(c: char): nat
    requires IsDigit(c)
  {
    c as int - '0' as int
  }

  function Digits(n: nat): string
  {
    if n < 10 then [Digit(n)] else Digits(n / 10) + [Digit(n % 10)]
  }

  /** The verb `%d`. */
  function Itoa(n: int): string
  {
    if n < 0 then "-" + Digits(-n) else Digits(n)
  }

  function ParseDigits(s: string): Option<nat>
  {
    if s == [] || !IsDigit(s[|s| - 1]) then None
    else if |s| == 1 then Some(DigitValue(s[0]))
    else match ParseDigits(s[..|s| - 1])
      case None => None
      case Some(n) => Some(10 * n + DigitValue(s[|s| - 1]))
  }

  /** `strconv.Atoi`: an optional sign and at least one digit. */
  function Atoi(s: string): Option<int>
  {
    if s != [] && (s[0] == '-' || s[0] == '+') then
      match ParseDigits(s[1..])
      case None => None
      case Some(n) => Some(if s[0] == '-' then -(n as int) else n)
    else
      ParseDigits(s)
  }

  lemma {:induction false} DigitsRoundTrip(n: nat)
    ensures ParseDigits(Digits(n)) == Some(n)
    ensures Digits(n) != [] && forall c :: c in Digits(n) ==> IsDigit(c)
  {
    if n >= 10 {
      DigitsRoundTrip(n / 10);
      assert Digits(n)[..|Digits(n)| - 1] == Digits(n / 10);
    }
  }

  predicate AllDigits(s: string) { s != [] && forall c :: c in s ==> IsDigit(c) }

  lemma {:induction false} ParseDigitsExactly(s: string)
    ensures ParseDigits(s).Some? <==> AllDigits(s)
  {
    if s != [] {
      var front := s[..|s| - 1];
      ParseDigitsExactly(front);
      assert s == front + [s[|s| - 1]];
    }
  }

  /** A number is a sign, perhaps, and digits. */
  lemma AtoiExactly(s: string)
    ensures Atoi(s).Some? <==> AllDigits(s) || (s != [] && (s[0] == '-' || s[0] == '+') && AllDigits(s[1..]))
  {
    ParseDigitsExactly(s);
    if s != [] { ParseDigitsExactly(s[1..]); }
  }

  lemma AtoiInvertsItoa(n: int)
    ensures Atoi(Itoa(n)) == Some(n)
  {
    var ds := Digits(if n < 0 then -n else n);
    DigitsRoundTrip(if n < 0 then -n else n);
    assert ds[0] in ds;
    AtoiOfDigits(ds);
  }

  lemma AtoiOfDigits(ds: string)
    requires ds != [] && IsDigit(ds[0])
    ensures Atoi(ds) == ParseDigits(ds)
    ensures Atoi("-" + ds) == match ParseDigits(ds) case None => None case Some(n) => Some(-(n as int))
  {
    assert ("-" + ds)[1..] == ds;
  }

  /** What a printed number is made of: digits, with one leading hyphen exactly when it is negative. */
  lemma ItoaShape(n: int)
    ensures Itoa(n) != []
    ensures n >= 0 ==> forall c :: c in Itoa(n) ==> IsDigit(c)
    ensures n < 0 ==> Itoa(n)[0] == '-' && |Itoa(n)| > 1 && forall c :: c in Itoa(n)[1..] ==> IsDigit(c)
    ensures forall c :: c in Itoa(n) ==> c == '-' || IsDigit(c)
  {
    DigitsRoundTrip(if n < 0 then -n else n);
    if n < 0 { assert Itoa(n)[1..] == Digits(-n); }
  }

  function FormatBool(b: bool): string { if b then "true" else "false" }

  // ----- White space -----

  /** `unicode.IsSpace`. */
  predicate IsSpace(c: char)
  {
    c == ' ' || '\t' <= c <= '\r' || c == '\U{85}' || c == '\U{A0}' || c == '\U{1680}'
    || '\U{2000}' <= c <= '\U{200A}' || c == '\U{2028}' || c == '\U{2029}' || c == '\U{202F}'
    || c == '\U{205F}' || c == '\U{3000}'
  }

  function TrimLeft(s: string): string
  {
    if s != [] && IsSpace(s[0]) then TrimLeft(s[1..]) else s
  }

  function TrimRight(s: string): string
  {
    if s != [] && IsSpace(s[|s| - 1]) then TrimRight(s[..|s| - 1]) else s
  }

  /** `strings.TrimSpace`. */
  function TrimSpace(s: string): string { TrimRight(TrimLeft(s)) }

  predicate AllSpaces(s: string) { forall c :: c in s ==> IsSpace(c) }

  /** Nothing is left to trim. */
  predicate IsTrimmed(s: string) { s != "" ==> !IsSpace(s[0]) && !IsSpace(s[|s| - 1]) }

  /** White space around a trimmed text is what TrimSpace takes off, and all it takes off. */
  lemma TrimSpaceIsExact(s: string, t: string)
    ensures TrimSpace(s) == t <==> exists a, b :: Surrounds(a, t, b, s)
  {
    var a, b := TrimSpaceCuts(s);
    if a', b' :| Surrounds(a', t, b', s) { TrimSpaceTakes(a', t, b'); }
  }

  predicate Surrounds(a: string, t: string, b: string, s: string)
  {
    s == a + t + b && AllSpaces(a) && AllSpaces(b) && IsTrimmed(t)
  }

  lemma TrimSpaceCuts(s: string) returns (a: string, b: string)
    ensures Surrounds(a, TrimSpace(s), b, s)
  {
    a := TrimLeftCuts(s);
    b := TrimRightCuts(TrimLeft(s));
    assert s == a + TrimSpace(s) + b;
    if TrimSpace(s) != "" { assert TrimLeft(s)[0] == TrimSpace(s)[0]; }
  }

  lemma {:induction false} TrimLeftCuts(s: string) returns (a: string)
    ensures s == a + TrimLeft(s) && AllSpaces(a)
    ensures TrimLeft(s) != "" ==> !IsSpace(TrimLeft(s)[0])
  {
    a := "";
    if s != [] && IsSpace(s[0]) {
      var rest := TrimLeftCuts(s[1..]);
      a := [s[0]] + rest;
      assert s == [s[0]] + s[1..];
    }
  }

  lemma {:induction false} TrimRightCuts(s: string) returns (b: string)
    ensures s == TrimRight(s) + b && AllSpaces(b)
    ensures TrimRight(s) != "" ==> !IsSpace(TrimRight(s)[|TrimRight(s)| - 1])
  {
    b := "";
    if s != [] && IsSpace(s[|s| - 1]) {
      var rest := TrimRightCuts(s[..|s| - 1]);
      b := rest + [s[|s| - 1]];
      assert s == s[..|s| - 1] + [s[|s| - 1]];
    }
  }

  lemma {:induction false} TrimSpaceTakes(a: string, t: string, b: string)
    requires AllSpaces(a) && AllSpaces(b) && IsTrimmed(t)
    ensures TrimSpace(a + t + b) == t
  {
    TrimLeftTakes(a, t + b);
    assert a + t + b == a + (t + b);
    if t == "" {
      assert t + b == b + "";
      TrimLeftTakes(b, "");
    } else {
      assert (t + b)[0] == t[0];
      TrimRightTakes(t, b);
    }
  }

  /** Spaces put around a text make no difference. */
  lemma TrimSpaceIgnores(a: string, s: string, b: string)
    requires AllSpaces(a) && AllSpaces(b)
    ensures TrimSpace(a + s + b) == TrimSpace(s)
  {
    var c, d := TrimSpaceCuts(s);
    assert a + s + b == (a + c) + TrimSpace(s) + (d + b);
    TrimSpaceTakes(a + c, TrimSpace(s), d + b);
  }

  lemma {:induction false} TrimLeftTakes(a: string, t: string)
    requires AllSpaces(a)
    ensures TrimLeft(a + t) == TrimLeft(t)
  {
    if a != [] {
      TrimLeftTakes(a[1..], t);
      assert (a + t)[1..] == a[1..] + t && (a + t)[0] == a[0];
    } else {
      assert a + t == t;
    }
  }

  lemma {:induction false} TrimRightTakes(t: string, b: string)
    requires AllSpaces(b)
    ensures TrimRight(t + b) == TrimRight(t)
  {
    if b != [] {
      TrimRightTakes(t, b[..|b| - 1]);
      assert (t + b)[..|t + b| - 1] == t + b[..|b| - 1] && (t + b)[|t + b| - 1] == b[|b| - 1];
    } else {
      assert t + b == t;
    }
  }

  // ----- Splitting and joining -----

  /** `strings.Split` at a one-character separator. */
  function Split(s: string, sep: char): (parts: seq<string>)
    ensures parts != []
  {
    if s == [] then [""]
    else
      var rest := Split(s[1..], sep);
      if s[0] == sep then [""] + rest else [[s[0]] + rest[0]] + rest[1..]
  }

  /** `strings.Join`. */
  function Join(parts: seq<string>, sep: string): string
  {
    if parts == [] then ""
    else if |parts| == 1 then parts[0]
    else parts[0] + sep + Join(parts[1..], sep)
  }

  lemma {:induction false} SplitAtFirst(x: string, sep: char, rest: string)
    requires sep !in x
    ensures Split(x, sep) == [x]
    ensures Split(x + [sep] + rest, sep) == [x] + Split(rest, sep)
  {
    var s := x + [sep] + rest;
    if x == [] {
      assert s[1..] == rest;
    } else {
      SplitAtFirst(x[1..], sep, rest);
      assert s[1..] == x[1..] + [sep] + rest;
      assert [x[0]] + x[1..] == x;
    }
  }

  lemma {:induction false} SplitInvertsJoin(parts: seq<string>, sep: char)
    requires parts != [] && forall p :: p in parts ==> sep !in p
    ensures Split(Join(parts, [sep]), sep) == parts
  {
    SplitAtFirst(parts[0], sep, Join(parts[1..], [sep]));
    if |parts| > 1 {
      SplitInvertsJoin(parts[1..], sep);
      assert [parts[0]] + parts[1..] == parts;
    }
  }

  lemma {:induction false} JoinInvertsSplit(s: string, sep: char)
    ensures Join(Split(s, sep), [sep]) == s
  {
    if s != [] {
      JoinInvertsSplit(s[1..], sep);
      var rest := Split(s[1..], sep);
      assert s == [s[0]] + s[1..];
      if s[0] == sep {
        assert ([""] + rest)[1..] == rest;
      } else {
        assert ([[s[0]] + rest[0]] + rest[1..])[1..] == rest[1..];
        if |rest| > 1 { assert [s[0]] + rest[0] + [sep] + Join(rest[1..], [sep]) == [s[0]] + s[1..]; }
      }
    }
  }

  lemma {:induction false} SplitPartsHaveNoSeparator(s: string, sep: char)
    ensures forall p :: p in Split(s, sep) ==> sep !in p
  {
    if s != [] { SplitPartsHaveNoSeparator(s[1..], sep); }
  }

  lemma {:induction false} JoinAppend(xs: seq<string>, ys: seq<string>, sep: string)
    requires xs != [] && ys != []
    ensures Join(xs + ys, sep) == Join(xs, sep) + sep + Join(ys, sep)
  {
    assert (xs + ys)[0] == xs[0] && |xs + ys| > 1;
    if |xs| == 1 {
      assert (xs + ys)[1..] == ys;
    } else {
      JoinAppend(xs[1..], ys, sep);
      assert (xs + ys)[1..] == xs[1..] + ys;
      AppendIsAssociative(xs[0] + sep, Join(xs[1..], sep), sep + Join(ys, sep));
    }
  }

  lemma AppendIsAssociative(a: string, b: string, c: string)
    ensures (a + b) + c == a + (b + c)
  {}

  // ----- Lines -----

  /** Lines, each ended by a line break. */
  function Lines(lines: seq<string>): string
  {
    if lines == [] then "" else Lines(lines[..|lines| - 1]) + lines[|lines| - 1] + "\n"
  }

  lemma LinesNext(lines: seq<string>, line: string)
    ensures Lines(lines + [line]) == Lines(lines) + (line + "\n")
  {
    assert (lines + [line])[..|lines|] == lines;
  }

  lemma {:induction false} SplitLines(lines: seq<string>)
    requires forall l :: l in lines ==> '\n' !in l
    ensures Split(Lines(lines), '\n') == lines + [""]
  {
    if lines != [] {
      SplitLines(lines[1..]);
      LinesOfRest(lines);
      SplitAtFirst(lines[0], '\n', Lines(lines[1..]));
      assert [lines[0]] + (lines[1..] + [""]) == lines + [""];
    }
  }

  lemma {:induction false} LinesOfRest(lines: seq<string>)
    requires lines != []
    ensures Lines(lines) == lines[0] + "\n" + Lines(lines[1..])
  {
    var init, last := lines[..|lines| - 1], lines[|lines| - 1];
    if init == [] {
      assert lines[1..] == [] && Lines([]) == "";
      assert "" + last + "\n" == last + "\n" + "";
    } else {
      LinesOfRest(init);
      assert lines[1..] == init[1..] + [last];
      LinesNext(init[1..], last);
      LinesNext(init, last);
      assert lines == init + [last];
    }
  }

  lemma {:induction false} LinesAppend(xs: seq<string>, ys: seq<string>)
    ensures Lines(xs + ys) == Lines(xs) + Lines(ys)
  {
    if ys == [] {
      assert xs + ys == xs;
    } else {
      var front, last := ys[..|ys| - 1], ys[|ys| - 1];
      LinesAppend(xs, front);
      assert xs + ys == xs + front + [last] && ys == front + [last];
      LinesNext(xs + front, last);
      LinesNext(front, last);
      AppendIsAssociative(Lines(xs), Lines(front), last + "\n");
    }
  }

  /** The lines of a text, each ended, are the text, ended. */
  lemma {:induction false} LinesOfSplit(s: string)
    ensures Lines(Split(s, '\n')) == s + "\n"
  {
    var parts := Split(s, '\n');
    LinesOfRest(parts);
    if s == [] {
      assert parts == [""] && parts[1..] == [] && Lines([]) == "";
    } else {
      LinesOfSplit(s[1..]);
      LinesOfRest(Split(s[1..], '\n'));
      assert s == [s[0]] + s[1..];
      if s[0] != '\n' {
        var rest := Split(s[1..], '\n');
        assert parts == [[s[0]] + rest[0]] + rest[1..];
        assert parts[1..] == rest[1..];
        assert [s[0]] + rest[0] + "\n" + Lines(rest[1..]) == [s[0]] + (rest[0] + "\n" + Lines(rest[1..]));
        assert [s[0]] + (s[1..] + "\n") == s + "\n";
      } else {
        assert parts[1..] == Split(s[1..], '\n');
        assert "" + "\n" + (s[1..] + "\n") == s + "\n";
      }
    }
  }

  /** The part of a text after its last separator is determined by the text. */
  lemma LastSeparatorIsUnique(sep: char, a: string, b: string, c: string, d: string)
    requires sep !in b && sep !in d
    requires a + [sep] + b == c + [sep] + d
    ensures a == c && b == d
  {
    var s := a + [sep] + b;
    NoSeparatorAfter(sep, a, b, |c|);
    NoSeparatorAfter(sep, c, d, |a|);
    assert s[..|a|] == a && s[|a| + 1..] == b;
    assert (c + [sep] + d)[..|c|] == c && (c + [sep] + d)[|c| + 1..] == d;
  }

  lemma NoSeparatorAfter(sep: char, a: string, b: string, k: nat)
    requires sep !in b && k < |a + [sep] + b| && (a + [sep] + b)[k] == sep
    ensures k <= |a|
  {
    assert forall i :: |a| < i < |a + [sep] + b| ==> (a + [sep] + b)[i] in b;
  }

  /** So is the part before its first separator. */
  lemma FirstSeparatorIsUnique(sep: char, a: string, b: string, c: string, d: string)
    requires sep !in a && sep !in c
    requires a + [sep] + b == c + [sep] + d
    ensures a == c && b == d
  {
    var s := a + [sep] + b;
    assert s[|a|] == sep && s[|c|] == sep;
    assert forall i :: 0 <= i < |a| ==> s[i] in a;
    assert forall i :: 0 <= i < |c| ==> s[i] in c;
    assert s[..|a|] == a && s[|a| + 1..] == b;
    assert (c + [sep] + d)[..|c|] == c && (c + [sep] + d)[|c| + 1..] == d;
  }

  // ----- The last separator -----

  /** `strings.LastIndex` of a character; -1 when it does not occur. */
  function LastIndex(s: string, c: char): (i: int)
    ensures -1 <= i < |s|
  {
    if s == [] then -1 else if s[|s| - 1] == c then |s| - 1 else LastIndex(s[..|s| - 1], c)
  }

  lemma {:induction false} LastIndexIsLast(s: string, c: char)
    ensures var i := LastIndex(s, c); (i >= 0 ==> s[i] == c) && forall j :: i < j < |s| ==> s[j] != c
  {
    if s != [] { LastIndexIsLast(s[..|s| - 1], c); }
  }

  /** A text is cut at its last separator: what is left is `front` exactly when the rest is free of it. */
  lemma CutAtLast(s: string, sep: char, front: string)
    ensures (LastIndex(s, sep) == |front| && front <= s) <==> exists rest :: s == front + [sep] + rest && sep !in rest
  {
    var i := LastIndex(s, sep);
    LastIndexIsLast(s, sep);
    if i == |front| && front <= s {
      var rest := s[i + 1..];
      assert forall j :: 0 <= j < |rest| ==> rest[j] == s[i + 1 + j];
      assert s == front + [sep] + rest;
    }
    if rest :| s == front + [sep] + rest && sep !in rest {
      assert s[|front|] == sep;
      NoSeparatorAfter(sep, front, rest, i);
    }
  }
}
