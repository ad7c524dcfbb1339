/**
 * The string operations of Go's `strings` package that the formatters, filters and the
 * daily-note splicer are built from, on strings of Unicode scalar values.
 */
module Text {

  /** unicode.IsSpace: the ASCII white space plus U+0085, U+00A0 and the Unicode space separators. */
  predicate IsSpace(c: char)
  {
    || c == ' ' || c == '\t' || c == '\n' || c == '\r' || c == '\U{B}' || c == '\U{C}'
    || c == '\U{85}' || c == '\U{A0}' || c == '\U{1680}' || ('\U{2000}' <= c <= '\U{200A}')
    || c == '\U{2028}' || c == '\U{2029}' || c == '\U{202F}' || c == '\U{205F}' || c == '\U{3000}'
  }

  /** strings.TrimLeft with unicode.IsSpace: the suffix left after dropping leading white space. */
  function TrimLeftSpace(s: string): (r: string)
    ensures |r| <= |s| && r == s[|s| - |r|..]
    ensures r == [] || !IsSpace(r[0])
    ensures forall i | 0 <= i < |s| - |r| :: IsSpace(s[i])
  {
    if s != [] && IsSpace(s[0]) then TrimLeftSpace(s[1..]) else s
  }

  /** strings.TrimRight with unicode.IsSpace: the prefix left after dropping trailing white space. */
  function TrimRightSpace(s: string): (r: string)
    ensures |r| <= |s| && r == s[..|r|]
    ensures r == [] || !IsSpace(r[|r| - 1])
    ensures forall i | |r| <= i < |s| :: IsSpace(s[i])
  {
    if s != [] && IsSpace(s[|s| - 1]) then TrimRightSpace(s[..|s| - 1]) else s
  }

  /** strings.TrimSpace. */
  function TrimSpace(s: string): (r: string)
    ensures r == [] || (!IsSpace(r[0]) && !IsSpace(r[|r| - 1]))
    ensures forall c | c in r :: c in s
  {
    TrimRightSpace(TrimLeftSpace(s))
  }

  /** A string that neither starts nor ends with white space is its own TrimSpace. */
  lemma TrimSpaceKeeps(s: string)
    requires s == [] || (!IsSpace(s[0]) && !IsSpace(s[|s| - 1]))
    ensures TrimSpace(s) == s
  {
  }

  /** Length of the run of non-space characters that starts s. */
  function WordLen(s: string): (n: nat)
    ensures n <= |s|
    ensures forall i | 0 <= i < n :: !IsSpace(s[i])
    ensures n == |s| || IsSpace(s[n])
  {
    if s == [] || IsSpace(s[0]) then 0 else 1 + WordLen(s[1..])
  }

  /** A non-empty run of non-space characters. */
  predicate Word(w: string)
  {
    w != [] && forall i | 0 <= i < |w| :: !IsSpace(w[i])
  }

  /** strings.Fields: the maximal runs of non-space characters, in order. */
  function Fields(s: string): (r: seq<string>)
    ensures forall k | 0 <= k < |r| :: Word(r[k])
    decreases |s|
  {
    var t := TrimLeftSpace(s);
    if t == [] then []
    else
      var n := WordLen(t);
      FirstWord(t);
      var rest := Fields(t[n..]);
      EveryCons(t[..n], rest, Word);
      [t[..n]] + rest
  }

  /** A property of the head and of every element of the tail holds of every element of the whole. */
  lemma EveryCons<T>(x: T, xs: seq<T>, p: T -> bool)
    requires p(x) && forall k | 0 <= k < |xs| :: p(xs[k])
    ensures forall k | 0 <= k < |[x] + xs| :: p(([x] + xs)[k])
  {
  }

  /** A string that does not start with white space starts with a word. */
  lemma FirstWord(t: string)
    requires t != [] && !IsSpace(t[0])
    ensures WordLen(t) > 0 && Word(t[..WordLen(t)])
  {
    var w := t[..WordLen(t)];
    assert forall i | 0 <= i < |w| :: w[i] == t[i];
  }

  /** Leading white space is skipped one character at a time. */
  lemma TrimLeftSpaceCons(c: char, s: string)
    requires IsSpace(c)
    ensures TrimLeftSpace([c] + s) == TrimLeftSpace(s)
  {
    assert ([c] + s)[1..] == s;
  }

  lemma {:induction false} WordLenWord(w: string, s: string)
    requires forall i | 0 <= i < |w| :: !IsSpace(w[i])
    ensures WordLen(w + s) == |w| + WordLen(s)
  {
    if w != [] {
      assert (w + s)[0] == w[0];
      assert (w + s)[1..] == w[1..] + s;
      WordLenWord(w[1..], s);
    } else {
      assert w + s == s;
    }
  }

  /**
   * A word followed by a space and further text splits into that word and the fields of the
   * text; the text has at least one field when it starts with a non-space character.
   */
  lemma FieldsWordSpace(w: string, rest: string)
    requires w != [] && forall i | 0 <= i < |w| :: !IsSpace(w[i])
    ensures Fields(w + " " + rest) == [w] + Fields(rest)
    ensures rest != [] && !IsSpace(rest[0]) ==> |Fields(rest)| >= 1
  {
    var t := w + " " + rest;
    assert t == w + (" " + rest);
    assert t[0] == w[0];
    assert TrimLeftSpace(t) == t;
    WordLenWord(w, " " + rest);
    assert (" " + rest)[0] == ' ';
    assert WordLen(" " + rest) == 0;
    assert WordLen(t) == |w|;
    assert t[..|w|] == w;
    assert t[|w|..] == [' '] + rest;
    TrimLeftSpaceCons(' ', rest);
    assert Fields(t) == [w] + Fields(t[|w|..]);
    if rest != [] && !IsSpace(rest[0]) {
      assert TrimLeftSpace(rest) == rest;
    }
  }

  /**
   * strings.TrimSpace removes exactly the leading and the trailing white space: the result is the
   * slice of s from the first non-space character on, everything before and after it is white
   * space, and it neither starts nor ends with white space, so no longer slice qualifies.
   */
  lemma TrimSpaceSpec(s: string)
    ensures var r, i := TrimSpace(s), |s| - |TrimLeftSpace(s)|;
      && (r == [] || (!IsSpace(r[0]) && !IsSpace(r[|r| - 1])))
      && 0 <= i <= i + |r| <= |s| && (forall k | 0 <= k < |r| :: r[k] == s[i + k])
      && (forall k | 0 <= k < i :: IsSpace(s[k]))
      && (forall k | i + |r| <= k < |s| :: IsSpace(s[k]))
  {
    TrimSpaceSlice(s);
    TrimSpaceCuts(s);
  }

  lemma TrimSpaceSlice(s: string)
    ensures var r, i := TrimSpace(s), |s| - |TrimLeftSpace(s)|;
      0 <= i <= i + |r| <= |s| && forall k | 0 <= k < |r| :: r[k] == s[i + k]
  {
    var t := TrimLeftSpace(s);
    PrefixOfSuffix(s, t, TrimRightSpace(t));
  }

  /** A prefix r of a suffix t of s is the slice of s where t starts. */
  lemma PrefixOfSuffix(s: string, t: string, r: string)
    requires |t| <= |s| && t == s[|s| - |t|..]
    requires |r| <= |t| && r == t[..|r|]
    ensures forall k | 0 <= k < |r| :: r[k] == s[|s| - |t| + k]
  {
  }

  lemma TrimSpaceCuts(s: string)
    ensures var r, i := TrimSpace(s), |s| - |TrimLeftSpace(s)|;
      && 0 <= i <= i + |r| <= |s|
      && (forall k | 0 <= k < i :: IsSpace(s[k]))
      && (forall k | i + |r| <= k < |s| :: IsSpace(s[k]))
  {
    TrimmedSlice(s, TrimLeftSpace(s), TrimSpace(s), IsSpace);
  }

  /** For a prefix r of a suffix t of s, with only p-characters cut off on either side: what lies outside r in s. */
  lemma TrimmedSlice(s: string, t: string, r: string, p: char -> bool)
    requires |t| <= |s| && t == s[|s| - |t|..] && forall k | 0 <= k < |s| - |t| :: p(s[k])
    requires |r| <= |t| && r == t[..|r|] && forall k | |r| <= k < |t| :: p(t[k])
    ensures var i := |s| - |t|;
      && (forall k | 0 <= k < i :: p(s[k]))
      && (forall k | i + |r| <= k < |s| :: p(s[k]))
  {
    var i := |s| - |t|;
    forall k | i + |r| <= k < |s| ensures p(s[k]) {
      assert s[k] == t[k - i];
    }
  }

  /** The strings concatenated, in order. */
  function Concat(parts: seq<string>): string
  {
    if parts == [] then [] else parts[0] + Concat(parts[1..])
  }

  /** The characters of s that p rejects, in order. */
  function Without(s: string, p: char -> bool): string
  {
    if s == [] then []
    else Without(s[..|s| - 1], p) + (if p(s[|s| - 1]) then [] else [s[|s| - 1]])
  }

  /** The characters of s that are not white space, in order. */
  function NonSpace(s: string): string
  {
    Without(s, IsSpace)
  }

  lemma {:induction false} WithoutAppend(a: string, b: string, p: char -> bool)
    ensures Without(a + b, p) == Without(a, p) + Without(b, p)
    decreases |b|
  {
    if b == [] {
      assert a + b == a;
    } else {
      var c := a + b;
      assert c[..|c| - 1] == a + b[..|b| - 1];
      WithoutAppend(a, b[..|b| - 1], p);
    }
  }

  lemma {:induction false} WithoutAll(s: string, p: char -> bool)
    requires forall k | 0 <= k < |s| :: p(s[k])
    ensures Without(s, p) == []
  {
    if s != [] {
      WithoutAll(s[..|s| - 1], p);
    }
  }

  lemma {:induction false} WithoutNone(w: string, p: char -> bool)
    requires forall k | 0 <= k < |w| :: !p(w[k])
    ensures Without(w, p) == w
  {
    if w != [] {
      WithoutNone(w[..|w| - 1], p);
      assert w == w[..|w| - 1] + [w[|w| - 1]];
    }
  }

  /** Without drops a leading run of rejected characters and keeps the run of accepted ones after it. */
  lemma WithoutGapWord(lead: string, t: string, n: nat, p: char -> bool)
    requires forall k | 0 <= k < |lead| :: p(lead[k])
    requires n <= |t| && forall k | 0 <= k < n :: !p(t[k])
    ensures Without(lead + t, p) == t[..n] + Without(t[n..], p)
  {
    WithoutAll(lead, p);
    WithoutAppend(lead, t, p);
    assert t == t[..n] + t[n..];
    WithoutNone(t[..n], p);
    WithoutAppend(t[..n], t[n..], p);
  }

  /** One step of strings.Fields: the leading white space, then the first word and what follows it. */
  lemma FieldsUnfold(s: string)
    ensures var t := TrimLeftSpace(s);
      && (t == [] ==> Fields(s) == [])
      && (t != [] ==> 0 < WordLen(t) && Fields(s) == [t[..WordLen(t)]] + Fields(t[WordLen(t)..]))
  {
    var t := TrimLeftSpace(s);
    if t != [] {
      assert !IsSpace(t[0]);
    }
  }

  /** strings.Fields gives no fields exactly when s is all white space. */
  lemma FieldsNone(s: string)
    ensures Fields(s) == [] <==> forall k | 0 <= k < |s| :: IsSpace(s[k])
  {
    var t := TrimLeftSpace(s);
    FieldsUnfold(s);
    if t != [] {
      assert !IsSpace(s[|s| - |t|]);
    }
  }

  /** The non-space characters of s: its first word, then those of the rest; none when it is all white space. */
  lemma NonSpaceSplit(s: string)
    ensures var t := TrimLeftSpace(s);
      WordLen(t) <= |t| && NonSpace(s) == t[..WordLen(t)] + NonSpace(t[WordLen(t)..])
  {
    var t := TrimLeftSpace(s);
    var lead := s[..|s| - |t|];
    assert s == lead + t;
    WithoutGapWord(lead, t, WordLen(t), IsSpace);
  }

  /** strings.Fields loses nothing but white space: the fields, concatenated, are the non-space characters of s in order. */
  lemma {:induction false} FieldsConcat(s: string)
    ensures Concat(Fields(s)) == NonSpace(s)
    decreases |s|
  {
    var t := TrimLeftSpace(s);
    FieldsUnfold(s);
    NonSpaceSplit(s);
    if t != [] {
      var n := WordLen(t);
      var rest := t[n..];
      FieldsConcat(rest);
      assert Concat([t[..n]] + Fields(rest)) == t[..n] + Concat(Fields(rest));
    } else {
      assert t[..0] == [] && t[0..] == [];
    }
  }

  /** The first field starts the string exactly when the string does not start with white space. */
  lemma FieldsFirstPrefix(s: string)
    requires Fields(s) != []
    ensures s != [] && (HasPrefix(s, Fields(s)[0]) <==> !IsSpace(s[0]))
  {
    FieldsUnfold(s);
    var w := Fields(s)[0];
    if !IsSpace(s[0]) {
      assert TrimLeftSpace(s) == s;
    }
    if HasPrefix(s, w) {
      assert s[0] == w[0];
    }
  }

  /** Leading white space is skipped by strings.Fields. */
  lemma FieldsSkipsSpace(c: char, rest: string)
    requires IsSpace(c)
    ensures Fields([c] + rest) == Fields(rest)
  {
    TrimLeftSpaceCons(c, rest);
    FieldsUnfold([c] + rest);
    FieldsUnfold(rest);
  }

  /** A word ended by white space is the first field, and the fields of the rest follow. */
  lemma FieldsWordBreak(w: string, c: char, rest: string)
    requires Word(w) && IsSpace(c)
    ensures Fields(w + [c] + rest) == [w] + Fields(rest)
  {
    var t := w + [c] + rest;
    assert t == w + ([c] + rest);
    assert t[0] == w[0];
    assert TrimLeftSpace(t) == t;
    WordLenWord(w, [c] + rest);
    assert ([c] + rest)[0] == c;
    assert t[..|w|] == w && t[|w|..] == [c] + rest;
    FieldsUnfold(t);
    FieldsSkipsSpace(c, rest);
  }

  /** A word on its own is the only field. */
  lemma FieldsOneWord(w: string)
    requires Word(w)
    ensures Fields(w) == [w]
  {
    assert w[0] == w[0];
    assert TrimLeftSpace(w) == w;
    WordLenWord(w, []);
    assert w + [] == w;
    FieldsUnfold(w);
    FieldsUnfold([]);
  }

  /** Trailing white space is trimmed inside the last part when that part is not all white space. */
  lemma {:induction false} TrimRightSpaceAppend(a: string, b: string)
    requires TrimRightSpace(b) != []
    ensures TrimRightSpace(a + b) == a + TrimRightSpace(b)
    decreases |b|
  {
    var s := a + b;
    assert s[|s| - 1] == b[|b| - 1];
    if IsSpace(b[|b| - 1]) {
      assert s[..|s| - 1] == a + b[..|b| - 1];
      TrimRightSpaceAppend(a, b[..|b| - 1]);
    }
  }

  /** A text that starts with a non-space character keeps its start under TrimSpace. */
  lemma TrimSpaceAppend(a: string, b: string)
    requires a != [] && !IsSpace(a[0])
    requires TrimRightSpace(b) != []
    ensures TrimSpace(a + b) == a + TrimRightSpace(b)
  {
    assert (a + b)[0] == a[0];
    TrimRightSpaceAppend(a, b);
  }

  predicate HasPrefix(s: string, p: string)
  {
    |p| <= |s| && s[..|p|] == p
  }

  /** strings.HasSuffix. */
  predicate HasSuffix(s: string, p: string)
  {
    |p| <= |s| && s[|s| - |p|..] == p
  }

  /** A character occurs in a + b exactly when it occurs in a or in b. */
  lemma InConcat(x: char, a: string, b: string)
    ensures x in a + b <==> x in a || x in b
  {
    if x in a + b {
      var i :| 0 <= i < |a + b| && (a + b)[i] == x;
      if i >= |a| {
        assert b[i - |a|] == x;
      }
    }
    if x in b {
      var i :| 0 <= i < |b| && b[i] == x;
      assert (a + b)[|a| + i] == x;
    }
  }

  /** strings.TrimPrefix: s without p when it starts with p, else s itself. */
  function TrimPrefix(s: string, p: string): (r: string)
    ensures HasPrefix(s, p) ==> p + r == s
    ensures !HasPrefix(s, p) ==> r == s
  {
    if HasPrefix(s, p) then s[|p|..] else s
  }

  /** strings.Contains: sub occurs somewhere in s (the empty string occurs everywhere). */
  predicate Contains(s: string, sub: string)
    decreases |s|
  {
    HasPrefix(s, sub) || (s != [] && Contains(s[1..], sub))
  }

  lemma ContainsItself(s: string)
    ensures Contains(s, s)
  {
  }

  /** What occurs in a occurs in a + b. */
  lemma {:induction false} ContainsLeft(a: string, b: string, sub: string)
    requires Contains(a, sub)
    ensures Contains(a + b, sub)
    decreases |a|
  {
    if HasPrefix(a, sub) {
      assert (a + b)[..|sub|] == a[..|sub|];
    } else {
      ContainsLeft(a[1..], b, sub);
      assert (a + b)[1..] == a[1..] + b;
    }
  }

  /** What occurs in b occurs in a + b. */
  lemma {:induction false} ContainsRight(a: string, b: string, sub: string)
    requires Contains(b, sub)
    ensures Contains(a + b, sub)
    decreases |a|
  {
    if a == [] {
      assert a + b == b;
    } else {
      ContainsRight(a[1..], b, sub);
      assert (a + b)[1..] == a[1..] + b;
    }
  }

  /** strings.IndexByte: the first position of c in s, or -1. */
  function IndexOf(s: string, c: char): (i: int)
    ensures -1 <= i < |s|
    ensures i == -1 <==> c !in s
    ensures i >= 0 ==> s[i] == c && c !in s[..i]
  {
    if s == [] then -1
    else if s[0] == c then 0
    else
      var j := IndexOf(s[1..], c);
      if j == -1 then -1
      else
        assert s[..j + 1] == [s[0]] + s[1..][..j];
        j + 1
  }

  /** strings.Split(s, string(sep)): the pieces between occurrences of sep, at least one. */
  function Split(s: string, sep: char): (r: seq<string>)
    ensures |r| >= 1
    ensures forall k | 0 <= k < |r| :: sep !in r[k]
    ensures (|r| == 1) <==> sep !in s
    decreases |s|
  {
    var i := IndexOf(s, sep);
    if i == -1 then [s] else [s[..i]] + Split(s[i + 1..], sep)
  }

  /** strings.Join(parts, string(sep)). */
  function Join(parts: seq<string>, sep: char): string
  {
    if |parts| == 0 then ""
    else if |parts| == 1 then parts[0]
    else parts[0] + [sep] + Join(parts[1..], sep)
  }

  lemma JoinCons(a: string, rest: seq<string>, sep: char)
    requires |rest| >= 1
    ensures Join([a] + rest, sep) == a + [sep] + Join(rest, sep)
  {
    assert ([a] + rest)[1..] == rest;
  }

  /** Joining the pieces of Split with the same separator gives back the original text. */
  lemma {:induction false} SplitJoin(s: string, sep: char)
    ensures Join(Split(s, sep), sep) == s
    decreases |s|
  {
    var i := IndexOf(s, sep);
    if i == -1 {
      assert Split(s, sep) == [s];
    } else {
      var rest := Split(s[i + 1..], sep);
      assert Split(s, sep) == [s[..i]] + rest;
      SplitJoin(s[i + 1..], sep);
      JoinCons(s[..i], rest, sep);
      assert s == s[..i] + [sep] + s[i + 1..];
    }
  }

  /** The first occurrence of c in a + [c] + b is right after a when a does not contain c. */
  lemma {:induction false} IndexOfAfter(a: string, c: char, b: string)
    requires c !in a
    ensures IndexOf(a + [c] + b, c) == |a|
  {
    var s := a + [c] + b;
    if a == [] {
      assert s[0] == c;
    } else {
      assert s[0] == a[0];
      assert s[1..] == a[1..] + [c] + b;
      IndexOfAfter(a[1..], c, b);
    }
  }

  /** The first element of strings.Split(s, "\n"): everything before the first newline. */
  function FirstLine(s: string): (r: string)
    ensures '\n' !in r
    ensures HasPrefix(s, r)
    ensures r == s <==> '\n' !in s
    ensures r == Split(s, '\n')[0]
  {
    var i := IndexOf(s, '\n');
    if i == -1 then s else s[..i]
  }

  /** strings.TrimRight(s, string(c)): s without its trailing run of c. */
  function TrimRightChar(s: string, c: char): (r: string)
    ensures |r| <= |s| && r == s[..|r|]
    ensures r == [] || r[|r| - 1] != c
    ensures forall i | |r| <= i < |s| :: s[i] == c
  {
    if s != [] && s[|s| - 1] == c then TrimRightChar(s[..|s| - 1], c) else s
  }

  function LowerChar(c: char): (r: char)
    ensures 'A' <= c <= 'Z' ==> r as int == c as int + 32
    ensures !('A' <= c <= 'Z') ==> r == c
  {
    if 'A' <= c <= 'Z' then (c as int + 32) as char else c
  }

  /** strings.ToLower restricted to ASCII letters; other characters are kept. */
  function ToLower(s: string): (r: string)
    ensures |r| == |s|
    ensures forall i | 0 <= i < |s| :: r[i] == LowerChar(s[i])
  {
    seq(|s|, i requires 0 <= i < |s| => LowerChar(s[i]))
  }

  predicate IsDigit(c: char)
  {
    '0' <= c <= '9'
  }

  function DigitChar(d: nat): (c: char)
    requires d < 10
    ensures IsDigit(c) && c as int - '0' as int == d
  {
    ('0' as int + d) as char
  }

  /** The decimal numeral of n (strconv.Itoa on a non-negative number): digits only, no leading zero. */
  function Decimal(n: nat): (r: string)
    ensures |r| >= 1
    ensures forall i | 0 <= i < |r| :: IsDigit(r[i])
    ensures n >= 10 ==> r[0] != '0'
    ensures n < 10 <==> |r| == 1
  {
    if n < 10 then [DigitChar(n)] else Decimal(n / 10) + [DigitChar(n % 10)]
  }

  /** The number a string of digits spells in base ten. */
  function DecimalValue(s: string): nat
    requires forall i | 0 <= i < |s| :: IsDigit(s[i])
  {
    if s == [] then 0
    else
      assert IsDigit(s[|s| - 1]);
      DecimalValue(s[..|s| - 1]) * 10 + (s[|s| - 1] as int - '0' as int)
  }

  /** Reading back a numeral gives the number it was written from. */
  lemma {:induction false} DecimalRoundTrip(n: nat)
    ensures DecimalValue(Decimal(n)) == n
  {
    if n >= 10 {
      DecimalRoundTrip(n / 10);
      var r := Decimal(n);
      assert r[..|r| - 1] == Decimal(n / 10);
    }
  }

  function Zeros(k: nat): (r: string)
    ensures |r| == k && forall i | 0 <= i < k :: r[i] == '0'
  {
    if k == 0 then [] else Zeros(k - 1) + ['0']
  }

  /** Leading zeros add nothing to a numeral's value. */
  lemma {:induction false} ZerosValue(k: nat, s: string)
    requires forall i | 0 <= i < |s| :: IsDigit(s[i])
    ensures DecimalValue(Zeros(k) + s) == DecimalValue(s)
    decreases |s|, k
  {
    if s == [] {
      if k > 0 {
        assert Zeros(k) + s == Zeros(k - 1) + ['0'];
        ZerosValue(k - 1, []);
        assert Zeros(k - 1) + [] == Zeros(k - 1);
      }
    } else {
      var z := Zeros(k) + s;
      assert z[..|z| - 1] == Zeros(k) + s[..|s| - 1];
      ZerosValue(k, s[..|s| - 1]);
    }
  }

  /** A numeral zero-padded on the left to at least `width` characters, as Go's time layouts write "2006", "01". */
  function Padded(n: nat, width: nat): (r: string)
    ensures |r| == if |Decimal(n)| < width then width else |Decimal(n)|
    ensures forall i | 0 <= i < |r| :: IsDigit(r[i])
    ensures DecimalValue(r) == n
  {
    var d := Decimal(n);
    DecimalRoundTrip(n);
    if |d| < width then
      ZerosValue(width - |d|, d);
      Zeros(width - |d|) + d
    else d
  }
}
