/** String operations the codec borrows from JavaScript: the `\w` character
    class, ASCII case mapping, `trim`, `split(',')`, `Number()`, `parseInt`
    and `toString` on naturals, restricted to plain decimal notation. */
module Text {
  import opened Base

  predicate IsDigit(c: char) { '0' <= c <= '9' }

  /** The regular-expression class `\w`: `[A-Za-z0-9_]`. */
  predicate IsWordChar(c: char)
  {
    'a' <= c <= 'z' || 'A' <= c <= 'Z' || IsDigit(c) || c == '_'
  }

  /** The white space `trim` removes, restricted to ASCII (space, tab, line
      feed, vertical tab, form feed, carriage return). */
  predicate IsSpace(c: char) { c == ' ' || '\t' <= c <= '\r' }

  function UpperChar(c: char): char
  {
    if 'a' <= c <= 'z' then (c as int - 32) as char else c
  }

  function LowerChar(c: char): char
  {
    if 'A' <= c <= 'Z' then (c as int + 32) as char else c
  }

  /** `toUpperCase` on ASCII letters; every other character is kept. */
  function Upper(s: string): (r: string)
    ensures |r| == |s| && forall k :: 0 <= k < |s| ==> r[k] == UpperChar(s[k])
  {
    seq(|s|, k requires 0 <= k < |s| => UpperChar(s[k]))
  }

  /** `toLowerCase` on ASCII letters; every other character is kept. */
  function Lower(s: string): (r: string)
    ensures |r| == |s| && forall k :: 0 <= k < |s| ==> r[k] == LowerChar(s[k])
  {
    seq(|s|, k requires 0 <= k < |s| => LowerChar(s[k]))
  }

  /** Two strings are equal up to ASCII case exactly when their upper-case
      forms are equal, and likewise for the lower-case forms: the two
      comparisons the source uses (names by lower case, aliases by upper
      case) agree. */
  lemma CaseFoldsAgree(a: string, b: string)
    ensures Upper(a) == Upper(b) <==> Lower(a) == Lower(b)
  {
    if Upper(a) == Upper(b) {
      assert |a| == |b|;
      forall k | 0 <= k < |a| ensures Lower(a)[k] == Lower(b)[k] {
        assert UpperChar(a[k]) == UpperChar(b[k]);
      }
    }
    if Lower(a) == Lower(b) {
      assert |a| == |b|;
      forall k | 0 <= k < |a| ensures Upper(a)[k] == Upper(b)[k] {
        assert LowerChar(a[k]) == LowerChar(b[k]);
      }
    }
  }

  /** `trimStart`: the longest suffix not starting with white space. */
  function TrimLeft(s: string): (t: string)
    ensures |t| <= |s| && t == s[|s| - |t|..]
    ensures t == [] || !IsSpace(t[0])
    ensures forall k :: 0 <= k < |s| - |t| ==> IsSpace(s[k])
  {
    if |s| > 0 && IsSpace(s[0]) then TrimLeft(s[1..]) else s
  }

  /** `trimEnd`: the longest prefix not ending with white space. */
  function TrimRight(s: string): (t: string)
    ensures |t| <= |s| && t == s[..|t|]
    ensures t == [] || !IsSpace(t[|t| - 1])
    ensures forall k :: |t| <= k < |s| ==> IsSpace(s[k])
  {
    if |s| > 0 && IsSpace(s[|s| - 1]) then TrimRight(s[..|s| - 1]) else s
  }

  /** `trim`: the white space at both ends removed. */
  function Trim(s: string): string
  {
    TrimRight(TrimLeft(s))
  }

  /** What `trim` keeps: a contiguous part of the input, with no white space at
      either end, and only white space cut off around it. */
  lemma TrimSpec(s: string)
    ensures var t, i := Trim(s), |s| - |TrimLeft(s)|;
      && i + |t| <= |s| && t == s[i..i + |t|]
      && (t == [] || (!IsSpace(t[0]) && !IsSpace(t[|t| - 1])))
      && (forall k :: 0 <= k < i ==> IsSpace(s[k]))
      && (forall k :: i + |t| <= k < |s| ==> IsSpace(s[k]))
  {
    TrimSlice(s);
    TrimTail(s);
    var l := TrimLeft(s);
    assert Trim(s) != [] ==> Trim(s)[0] == l[0];
  }

  lemma TrimSlice(s: string)
    ensures var t, i := Trim(s), |s| - |TrimLeft(s)|;
      i + |t| <= |s| && t == s[i..i + |t|]
  {
    var l := TrimLeft(s);
    var i := |s| - |l|;
    var t := TrimRight(l);
    assert t == l[..|t|] == s[i..][..|t|];
    assert s[i..][..|t|] == s[i..i + |t|];
  }

  lemma TrimTail(s: string)
    ensures var t, i := Trim(s), |s| - |TrimLeft(s)|;
      forall k :: i + |t| <= k < |s| ==> IsSpace(s[k])
  {
    var l := TrimLeft(s);
    var t := TrimRight(l);
    var i := |s| - |l|;
    assert l == s[i..];
    forall k | i + |t| <= k < |s| ensures IsSpace(s[k]) {
      assert |t| <= k - i < |l|;
      assert s[k] == l[k - i];
    }
  }

  /** `trim` is idempotent. */
  lemma TrimIdempotent(s: string)
    ensures Trim(Trim(s)) == Trim(s)
  {
    var t := Trim(s);
    TrimSpec(s);
    assert TrimLeft(t) == t;
  }

  /** `s.split(sep)`: the pieces between separators, in order; the empty
      string gives one empty piece, and adjacent separators an empty piece. */
  function Split(s: string, sep: char): (parts: seq<string>)
    ensures |parts| >= 1
    ensures forall i :: 0 <= i < |parts| ==> sep !in parts[i]
  {
    if |s| == 0 then [""]
    else
      var rest := Split(s[1..], sep);
      if s[0] == sep then [""] + rest
      else [[s[0]] + rest[0]] + rest[1..]
  }

  /** `parts.join(sep)`, the inverse of Split. */
  function Join(parts: seq<string>, sep: char): string
    requires |parts| >= 1
  {
    if |parts| == 1 then parts[0] else parts[0] + [sep] + Join(parts[1..], sep)
  }

  /** Splitting loses nothing: joining the pieces restores the string. */
  lemma {:induction false} JoinSplit(s: string, sep: char)
    ensures Join(Split(s, sep), sep) == s
  {
    if |s| > 0 {
      var rest := Split(s[1..], sep);
      JoinSplit(s[1..], sep);
      if s[0] == sep {
        assert Split(s, sep)[1..] == rest;
        assert [s[0]] + s[1..] == s;
      } else {
        var parts := Split(s, sep);
        if |rest| == 1 {
          assert parts == [[s[0]] + rest[0]];
          assert [s[0]] + s[1..] == s;
        } else {
          assert parts[1..] == rest[1..];
          assert Join(rest, sep) == rest[0] + [sep] + Join(rest[1..], sep);
          assert [s[0]] + s[1..] == s;
        }
      }
    }
  }

  /** And the other direction: pieces free of the separator are recovered
      from their join. */
  lemma {:induction false} SplitJoin(parts: seq<string>, sep: char)
    requires |parts| >= 1
    requires forall i :: 0 <= i < |parts| ==> sep !in parts[i]
    ensures Split(Join(parts, sep), sep) == parts
    decreases |parts|, |parts[0]|
  {
    var p0 := parts[0];
    if |parts| == 1 {
      SplitPlain(p0, sep);
    } else if |p0| == 0 {
      var j := Join(parts, sep);
      assert j == [sep] + Join(parts[1..], sep);
      assert j[1..] == Join(parts[1..], sep);
      SplitJoin(parts[1..], sep);
      assert parts == [""] + parts[1..];
    } else {
      var shorter := [p0[1..]] + parts[1..];
      assert shorter[1..] == parts[1..];
      assert sep !in p0[1..] by {
        forall c | c in p0[1..] ensures c != sep { assert c in p0; }
      }
      SplitJoin(shorter, sep);
      var j := Join(parts, sep);
      assert j == [p0[0]] + Join(shorter, sep);
      assert j[1..] == Join(shorter, sep);
      assert [p0[0]] + p0[1..] == p0;
    }
  }

  /** A string without the separator splits into itself alone. */
  lemma {:induction false} SplitPlain(s: string, sep: char)
    requires sep !in s
    ensures Split(s, sep) == [s]
  {
    if |s| > 0 {
      assert sep !in s[1..] by {
        forall c | c in s[1..] ensures c != sep { assert c in s; }
      }
      SplitPlain(s[1..], sep);
      assert [s[0]] + s[1..] == s;
    }
  }

  function DigitValue(c: char): nat
    requires IsDigit(c)
  {
    c as int - '0' as int
  }

  predicate AllDigits(s: string)
  {
    forall k :: 0 <= k < |s| ==> IsDigit(s[k])
  }

  /** The value of a string of decimal digits (most significant first). */
  function DecimalValue(s: string): nat
    requires AllDigits(s)
  {
    if |s| == 0 then 0 else DecimalValue(s[..|s| - 1]) * 10 + DigitValue(s[|s| - 1])
  }

  /** `Number(s)` restricted to decimal: surrounding white space is ignored,
      the empty string is 0, and anything but digits is NaN (`None`). */
  function JsNumber(s: string): (r: Option<nat>)
    ensures r.Some? <==> AllDigits(Trim(s))
    ensures r.Some? ==> r.value == DecimalValue(Trim(s))
    ensures Trim(s) == "" ==> r == Some(0)
  {
    var t := Trim(s);
    if AllDigits(t) then Some(DecimalValue(t)) else None
  }

  /** The longest prefix made of digits. */
  function DigitPrefix(s: string): (d: string)
    ensures |d| <= |s| && d == s[..|d|] && AllDigits(d)
    ensures |d| == |s| || !IsDigit(s[|d|])
  {
    if |s| > 0 && IsDigit(s[0]) then [s[0]] + DigitPrefix(s[1..]) else ""
  }

  /** `parseInt(s)` restricted to decimal: leading white space is skipped,
      the leading digits are read and the rest ignored; no digit is NaN. */
  function ParseInt(s: string): (r: Option<nat>)
    ensures r.Some? <==> |TrimLeft(s)| > 0 && IsDigit(TrimLeft(s)[0])
    ensures r.Some? ==> r.value == DecimalValue(DigitPrefix(TrimLeft(s)))
  {
    var d := DigitPrefix(TrimLeft(s));
    if d == "" then None else Some(DecimalValue(d))
  }

  /** `n.toString()`: the shortest decimal representation. */
  function NatToString(n: nat): (s: string)
    ensures |s| >= 1 && AllDigits(s)
    ensures n == 0 ==> s == "0"
    ensures n > 0 ==> s[0] != '0'
  {
    var d := ['0' + (n % 10) as char];
    if n < 10 then d else NatToString(n / 10) + d
  }

  /** Printing and then reading a natural gives it back. */
  lemma {:induction false} DecimalOfNatToString(n: nat)
    ensures DecimalValue(NatToString(n)) == n
  {
    var s := NatToString(n);
    if n >= 10 {
      DecimalOfNatToString(n / 10);
      assert s[..|s| - 1] == NatToString(n / 10);
    } else {
      assert s[..0] == "";
    }
  }

  /** Hence both of the source's number readers invert `toString`. */
  lemma NumberOfNatToString(n: nat)
    ensures JsNumber(NatToString(n)) == Some(n)
    ensures ParseInt(NatToString(n)) == Some(n)
  {
    var s := NatToString(n);
    DecimalOfNatToString(n);
    assert !IsSpace(s[0]) && !IsSpace(s[|s| - 1]);
    assert TrimLeft(s) == s;
    assert TrimRight(s) == s;
    assert DigitPrefix(s) == s;
  }

  /** On a string of digits with no surrounding space the two readers agree;
      on the empty string they differ (`Number` gives 0, `parseInt` NaN). */
  lemma NumberAgreesWithParseInt(s: string)
    requires |s| > 0 && AllDigits(s)
    ensures JsNumber(s) == ParseInt(s) == Some(DecimalValue(s))
  {
    assert !IsSpace(s[0]) && !IsSpace(s[|s| - 1]);
    assert TrimLeft(s) == s;
    assert TrimRight(s) == s;
    assert DigitPrefix(s) == s;
  }

  /** Reading stops at the first non-digit. */
  lemma {:induction false} DigitPrefixOf(a: string, b: string)
    requires AllDigits(a)
    requires b == [] || !IsDigit(b[0])
    ensures DigitPrefix(a + b) == a
  {
    if |a| > 0 {
      assert (a + b)[1..] == a[1..] + b;
      DigitPrefixOf(a[1..], b);
      assert [a[0]] + a[1..] == a;
    } else {
      assert a + b == b;
    }
  }

  /** Where `Number` reads a non-empty digit string, `parseInt` reads the same
      number: the two readers the codec uses for one registry value agree. */
  lemma ParseIntOfNumber(s: string)
    requires JsNumber(s).Some? && Trim(s) != ""
    ensures ParseInt(s) == JsNumber(s)
  {
    DigitsBeforeSpace(TrimLeft(s), Trim(s));
  }

  /** Trimming the end of digits followed by white space leaves the digits,
      which are then exactly the digit prefix. */
  lemma DigitsBeforeSpace(l: string, t: string)
    requires t == TrimRight(l) && AllDigits(t)
    ensures DigitPrefix(l) == t
  {
    var rest := l[|t|..];
    assert l == t + rest;
    if rest != [] {
      assert rest[0] == l[|t|];
      assert IsSpace(rest[0]);
    }
    DigitPrefixOf(t, rest);
  }
}
