/** The pieces of Go's string handling that the client relies on: the byte view
    of a string (UTF-8), `strings.Contains`, decimal formatting of integers and
    the `%s`/`%d` subset of `fmt.Sprintf`. */
module GoStrings {

  import opened Wrappers

  newtype byte = x: int | 0 <= x < 256

  // ---------------------------------------------------------------------------
  // []byte(s): a Go string is the UTF-8 encoding of its characters

  function Utf8Char(c: char): (r: seq<byte>)
    ensures 1 <= |r| <= 4
    ensures (c as int < 0x80) <==> (|r| == 1)
    ensures c as int < 0x80 ==> r == [c as int as byte]
  {
    var n := c as int;
    if n < 0x80 then [n as byte]
    else if n < 0x800 then [(0xC0 + n / 64) as byte, (0x80 + n % 64) as byte]
    else if n < 0x10000 then
      [(0xE0 + n / 4096) as byte, (0x80 + (n / 64) % 64) as byte, (0x80 + n % 64) as byte]
    else
      [(0xF0 + n / 262144) as byte, (0x80 + (n / 4096) % 64) as byte,
       (0x80 + (n / 64) % 64) as byte, (0x80 + n % 64) as byte]
  }

  function Utf8(s: string): (r: seq<byte>)
    decreases |s|
  {
    if s == [] then [] else Utf8Char(s[0]) + Utf8(s[1..])
  }

  /** The byte view of a concatenation is the concatenation of the byte views. */
  lemma {:induction false} Utf8Append(a: string, b: string)
    ensures Utf8(a + b) == Utf8(a) + Utf8(b)
    decreases |a|
  {
    if a == [] {
      assert a + b == b;
    } else {
      assert (a + b)[1..] == a[1..] + b;
      Utf8Append(a[1..], b);
    }
  }

  ghost predicate IsAscii(s: string)
  {
    forall i :: 0 <= i < |s| ==> s[i] as int < 0x80
  }

  /** On ASCII text the byte view has one byte per character, so byte indices
      and character indices coincide. */
  lemma {:induction false} AsciiUtf8(s: string)
    requires IsAscii(s)
    ensures |Utf8(s)| == |s|
    ensures forall i :: 0 <= i < |s| ==> Utf8(s)[i] == s[i] as int as byte
    decreases |s|
  {
    if s != [] {
      AsciiUtf8(s[1..]);
      assert Utf8(s) == [s[0] as int as byte] + Utf8(s[1..]);
    }
  }

  /** Slicing the first k bytes of an ASCII string is slicing its first k characters. */
  lemma AsciiPrefixBytes(s: string, k: nat)
    requires IsAscii(s) && k <= |s|
    ensures |Utf8(s)| == |s|
    ensures Utf8(s)[..k] == Utf8(s[..k])
  {
    AsciiUtf8(s);
    assert IsAscii(s[..k]);
    AsciiUtf8(s[..k]);
  }

  // ---------------------------------------------------------------------------
  // strings.Contains

  predicate HasPrefix(s: string, prefix: string)
  {
    |prefix| <= |s| && s[..|prefix|] == prefix
  }

  ghost predicate OccursAt(s: string, sub: string, i: int)
  {
    0 <= i && i + |sub| <= |s| && s[i..i + |sub|] == sub
  }

  /** strings.Contains(s, sub); like Go, every string contains "". */
  function Contains(s: string, sub: string): bool
    decreases |s|
  {
    HasPrefix(s, sub) || (|s| > 0 && Contains(s[1..], sub))
  }

  /** `Contains` holds exactly when `sub` occurs at some position of `s`. */
  lemma {:induction false} ContainsIffOccurs(s: string, sub: string)
    ensures Contains(s, sub) <==> exists i :: OccursAt(s, sub, i)
    decreases |s|
  {
    if HasPrefix(s, sub) {
      assert OccursAt(s, sub, 0);
    } else if |s| == 0 {
    } else {
      ContainsIffOccurs(s[1..], sub);
      if exists i :: OccursAt(s[1..], sub, i) {
        var i :| OccursAt(s[1..], sub, i);
        assert s[i + 1..i + 1 + |sub|] == s[1..][i..i + |sub|];
        assert OccursAt(s, sub, i + 1);
      }
      assert |sub| <= |s| ==> s[0..|sub|] == s[..|sub|];
      assert !OccursAt(s, sub, 0);
      if exists i :: OccursAt(s, sub, i) {
        var i :| OccursAt(s, sub, i);
        assert s[1..][i - 1..i - 1 + |sub|] == s[i..i + |sub|];
        assert OccursAt(s[1..], sub, i - 1);
      }
    }
  }

  // ---------------------------------------------------------------------------
  // Decimal integers, as formatted by `%d`

  predicate IsDigit(c: char)
  {
    '0' <= c <= '9'
  }

  predicate AllDigits(s: string)
  {
    forall i :: 0 <= i < |s| ==> IsDigit(s[i])
  }

  function DigitChar(d: nat): (c: char)
    requires d < 10
    ensures IsDigit(c) && (c as int) - ('0' as int) == d
  {
    ('0' as int + d) as char
  }

  function DigitValue(c: char): (d: nat)
    requires IsDigit(c)
    ensures d < 10
  {
    (c as int) - ('0' as int)
  }

  /** Reads a sequence of decimal digits, most significant first. */
  function ParseNat(s: string): nat
    requires AllDigits(s)
    decreases |s|
  {
    if s == [] then 0 else ParseNat(s[..|s| - 1]) * 10 + DigitValue(s[|s| - 1])
  }

  /** The shortest decimal rendering of a natural number. */
  function Decimal(n: nat): (r: string)
    ensures |r| > 0 && AllDigits(r)
    ensures r[0] == '0' ==> n == 0
    decreases n
  {
    if n < 10 then [DigitChar(n)] else Decimal(n / 10) + [DigitChar(n % 10)]
  }

  lemma {:induction false} ParseDecimal(n: nat)
    ensures ParseNat(Decimal(n)) == n
    decreases n
  {
    if n >= 10 {
      var s := Decimal(n);
      assert s[..|s| - 1] == Decimal(n / 10);
      ParseDecimal(n / 10);
    }
  }

  /** strconv's base-10 rendering of an integer: a '-' for negative values,
      then the digits of the magnitude. */
  function FormatInt(i: int): string
  {
    if i < 0 then "-" + Decimal(-i) else Decimal(i)
  }

  /** The inverse of `FormatInt` on its image. */
  function ParseInt(s: string): Option<int>
  {
    if |s| > 0 && s[0] == '-' && AllDigits(s[1..]) then Some(0 - ParseNat(s[1..]) as int)
    else if AllDigits(s) then Some(ParseNat(s))
    else None
  }

  lemma FormatIntRoundTrip(i: int)
    ensures ParseInt(FormatInt(i)) == Some(i)
  {
    if i < 0 {
      assert FormatInt(i)[1..] == Decimal(-i);
      ParseDecimal(-i);
    } else {
      ParseDecimal(i);
    }
  }

  // ---------------------------------------------------------------------------
  // fmt.Sprintf, restricted to the verbs the client uses

  datatype Arg = Str(s: string) | Int(i: int)

  /** Every '%' of the format starts `%s`, `%d` or `%%`, and the `%s`/`%d`
      verbs match the arguments one for one, in number and in kind (what
      `go vet` demands of every call site in the client). */
  predicate Conforms(format: string, args: seq<Arg>)
    decreases |format|
  {
    if format == [] then args == []
    else if format[0] != '%' then Conforms(format[1..], args)
    else
      |format| >= 2 &&
      ((format[1] == '%' && Conforms(format[2..], args)) ||
       (format[1] == 's' && |args| > 0 && args[0].Str? && Conforms(format[2..], args[1..])) ||
       (format[1] == 'd' && |args| > 0 && args[0].Int? && Conforms(format[2..], args[1..])))
  }

  function Render(a: Arg): string
  {
    match a
    case Str(s) => s
    case Int(i) => FormatInt(i)
  }

  function Sprintf(format: string, args: seq<Arg>): string
    requires Conforms(format, args)
    decreases |format|
  {
    if format == [] then ""
    else if format[0] != '%' then [format[0]] + Sprintf(format[1..], args)
    else if format[1] == '%' then "%" + Sprintf(format[2..], args)
    else Render(args[0]) + Sprintf(format[2..], args[1..])
  }

  /** Text without '%' is copied unchanged. */
  lemma {:induction false} SprintfLiteral(lit: string, rest: string, args: seq<Arg>)
    requires '%' !in lit
    requires Conforms(rest, args)
    ensures Conforms(lit + rest, args)
    ensures Sprintf(lit + rest, args) == lit + Sprintf(rest, args)
    decreases |lit|
  {
    if lit != [] {
      assert lit[0] in lit;
      assert (lit + rest)[1..] == lit[1..] + rest;
      SprintfLiteral(lit[1..], rest, args);
    } else {
      assert lit + rest == rest;
    }
  }

  /** A `%s` verb is replaced by the next argument. */
  lemma SprintfString(s: string, rest: string, args: seq<Arg>)
    requires Conforms(rest, args)
    ensures Conforms("%s" + rest, [Str(s)] + args)
    ensures Sprintf("%s" + rest, [Str(s)] + args) == s + Sprintf(rest, args)
  {
    var f := "%s" + rest;
    assert f[2..] == rest;
    assert ([Str(s)] + args)[1..] == args;
  }

  /** A `%d` verb is replaced by the decimal rendering of the next argument. */
  lemma SprintfInt(i: int, rest: string, args: seq<Arg>)
    requires Conforms(rest, args)
    ensures Conforms("%d" + rest, [Int(i)] + args)
    ensures Sprintf("%d" + rest, [Int(i)] + args) == FormatInt(i) + Sprintf(rest, args)
  {
    var f := "%d" + rest;
    assert f[2..] == rest;
    assert ([Int(i)] + args)[1..] == args;
  }

  /** A format that is a single `%s`. */
  lemma SprintfOnlyString(s: string)
    ensures Conforms("%s", [Str(s)])
    ensures Sprintf("%s", [Str(s)]) == s
  {
    SprintfString(s, "", []);
    assert "%s" + "" == "%s";
    assert [Str(s)] + [] == [Str(s)];
  }

  /** A format without verbs is its own rendering. */
  lemma SprintfNone(a: string)
    requires '%' !in a
    ensures Conforms(a, [])
    ensures Sprintf(a, []) == a
  {
    SprintfLiteral(a, "", []);
    assert a + "" == a;
  }

  /** Formatting is compositional: the rendering of two formats written one
      after the other, with their arguments one after the other, is the one
      rendering followed by the other. */
  lemma {:induction false} SprintfAppend(f1: string, args1: seq<Arg>, f2: string, args2: seq<Arg>)
    requires Conforms(f1, args1) && Conforms(f2, args2)
    ensures Conforms(f1 + f2, args1 + args2)
    ensures Sprintf(f1 + f2, args1 + args2) == Sprintf(f1, args1) + Sprintf(f2, args2)
    decreases |f1|
  {
    if f1 == [] {
      assert f1 + f2 == f2 && args1 + args2 == args2;
    } else if f1[0] != '%' {
      SprintfAppend(f1[1..], args1, f2, args2);
      SprintfAppendChar(f1, args1, f2, args2);
    } else if f1[1] == '%' {
      SprintfAppend(f1[2..], args1, f2, args2);
      SprintfAppendPercent(f1, args1, f2, args2);
    } else {
      SplitVerb(f1, args1);
      SprintfAppend(f1[2..], args1[1..], f2, args2);
      SprintfAppendLeadingVerb(f1, args1, f2, args2);
    }
  }

  /** The step of `SprintfAppend` for a leading `%s` or `%d`. */
  lemma SprintfAppendLeadingVerb(f1: string, args1: seq<Arg>, f2: string, args2: seq<Arg>)
    requires |f1| >= 2 && f1[0] == '%' && f1[1] != '%'
    requires Conforms(f1, args1) && Conforms(f2, args2)
    requires |args1| > 0 && ((f1[1] == 's' && args1[0].Str?) || (f1[1] == 'd' && args1[0].Int?))
    requires Conforms(f1[2..], args1[1..])
    requires Conforms(f1[2..] + f2, args1[1..] + args2)
    requires Sprintf(f1[2..] + f2, args1[1..] + args2) == Sprintf(f1[2..], args1[1..]) + Sprintf(f2, args2)
    ensures Conforms(f1 + f2, args1 + args2)
    ensures Sprintf(f1 + f2, args1 + args2) == Sprintf(f1, args1) + Sprintf(f2, args2)
  {
    SplitVerb(f1, args1);
    SprintfAppendVerb(f1[1], f1[2..], args1[0], args1[1..], f2, args2);
    AppendAssoc(['%', f1[1]], f1[2..], f2);
    AppendAssoc([args1[0]], args1[1..], args2);
  }

  lemma AppendAssoc<T>(a: seq<T>, b: seq<T>, c: seq<T>)
    ensures (a + b) + c == a + (b + c)
  {
  }

  /** The step of `SprintfAppend` for a plain first character. */
  lemma SprintfAppendChar(f1: string, args1: seq<Arg>, f2: string, args2: seq<Arg>)
    requires f1 != [] && f1[0] != '%'
    requires Conforms(f1, args1) && Conforms(f2, args2)
    requires Conforms(f1[1..] + f2, args1 + args2)
    requires Sprintf(f1[1..] + f2, args1 + args2) == Sprintf(f1[1..], args1) + Sprintf(f2, args2)
    ensures Conforms(f1 + f2, args1 + args2)
    ensures Sprintf(f1 + f2, args1 + args2) == Sprintf(f1, args1) + Sprintf(f2, args2)
  {
    var c, t := f1[0], f1[1..];
    assert f1 == [c] + t;
    CharFront(c, t, args1);
    CharFront(c, t + f2, args1 + args2);
    AppendAssoc([c], t, f2);
  }

  /** A character other than '%' in front of a conforming format is copied. */
  lemma CharFront(c: char, t: string, args: seq<Arg>)
    requires c != '%' && Conforms(t, args)
    ensures Conforms([c] + t, args)
    ensures Sprintf([c] + t, args) == [c] + Sprintf(t, args)
  {
    var g := [c] + t;
    assert g[0] == c && g[1..] == t;
  }

  /** The step of `SprintfAppend` for a leading `%%`. */
  lemma SprintfAppendPercent(f1: string, args1: seq<Arg>, f2: string, args2: seq<Arg>)
    requires |f1| >= 2 && f1[0] == '%' && f1[1] == '%'
    requires Conforms(f1, args1) && Conforms(f2, args2)
    requires Conforms(f1[2..] + f2, args1 + args2)
    requires Sprintf(f1[2..] + f2, args1 + args2) == Sprintf(f1[2..], args1) + Sprintf(f2, args2)
    ensures Conforms(f1 + f2, args1 + args2)
    ensures Sprintf(f1 + f2, args1 + args2) == Sprintf(f1, args1) + Sprintf(f2, args2)
  {
    var t := f1[2..];
    SplitPair(f1);
    PercentFront(t, args1);
    PercentFront(t + f2, args1 + args2);
    AppendAssoc(['%', '%'], t, f2);
  }

  lemma SplitPair<T>(s: seq<T>)
    requires |s| >= 2
    ensures s == [s[0], s[1]] + s[2..]
  {
    assert ([s[0], s[1]] + s[2..])[..2] == s[..2];
  }

  /** `%%` in front of a conforming format renders as one '%'. */
  lemma PercentFront(t: string, args: seq<Arg>)
    requires Conforms(t, args)
    ensures Conforms(['%', '%'] + t, args)
    ensures Sprintf(['%', '%'] + t, args) == "%" + Sprintf(t, args)
  {
    var g := ['%', '%'] + t;
    assert g[0] == '%' && g[1] == '%' && g[2..] == t;
  }

  /** The step of `SprintfAppend` for a leading `%s` or `%d`, on the format
      split into its verb and the rest. */
  lemma SprintfAppendVerb(v: char, t: string, x: Arg, rest: seq<Arg>, f2: string, args2: seq<Arg>)
    requires (v == 's' && x.Str?) || (v == 'd' && x.Int?)
    requires Conforms(t, rest) && Conforms(f2, args2)
    requires Conforms(t + f2, rest + args2)
    requires Sprintf(t + f2, rest + args2) == Sprintf(t, rest) + Sprintf(f2, args2)
    ensures Conforms(['%', v] + t, [x] + rest)
    ensures Conforms(['%', v] + (t + f2), [x] + (rest + args2))
    ensures Sprintf(['%', v] + (t + f2), [x] + (rest + args2)) == Sprintf(['%', v] + t, [x] + rest) + Sprintf(f2, args2)
  {
    VerbFront(v, t, x, rest);
    VerbFront(v, t + f2, x, rest + args2);
  }

  /** A verb in front of a conforming format takes one more argument of its
      kind and renders it in front. */
  lemma VerbFront(v: char, t: string, x: Arg, rest: seq<Arg>)
    requires (v == 's' && x.Str?) || (v == 'd' && x.Int?)
    requires Conforms(t, rest)
    ensures Conforms(['%', v] + t, [x] + rest)
    ensures Sprintf(['%', v] + t, [x] + rest) == Render(x) + Sprintf(t, rest)
  {
    var g, a := ['%', v] + t, [x] + rest;
    assert g[0] == '%' && g[1] == v && g[2..] == t;
    assert a[0] == x && a[1..] == rest;
  }

  /** A format led by a verb, and its arguments, split at the verb. */
  lemma SplitVerb(f: string, args: seq<Arg>)
    requires |f| >= 2 && f[0] == '%' && f[1] != '%'
    requires Conforms(f, args)
    ensures |args| > 0 && ((f[1] == 's' && args[0].Str?) || (f[1] == 'd' && args[0].Int?))
    ensures Conforms(f[2..], args[1..])
    ensures f == ['%', f[1]] + f[2..] && args == [args[0]] + args[1..]
  {
    assert f == ['%', f[1]] + f[2..];
    assert args == [args[0]] + args[1..];
  }

  /** A format that is a single `%d`. */
  lemma SprintfOnlyInt(i: int)
    ensures Conforms("%d", [Int(i)])
    ensures Sprintf("%d", [Int(i)]) == FormatInt(i)
  {
    SprintfInt(i, "", []);
    assert "%d" + "" == "%d";
    assert [Int(i)] + [] == [Int(i)];
  }

  /** Literal text after a format is copied after its rendering. */
  lemma SprintfThenLiteral(f: string, args: seq<Arg>, b: string)
    requires Conforms(f, args) && '%' !in b
    ensures Conforms(f + b, args)
    ensures Sprintf(f + b, args) == Sprintf(f, args) + b
  {
    SprintfNone(b);
    SprintfAppend(f, args, b, []);
    assert args + [] == args;
  }

  /** A `%s` after a format renders the next string argument as it is. */
  lemma SprintfThenString(f: string, args: seq<Arg>, x: string)
    requires Conforms(f, args)
    ensures Conforms(f + "%s", args + [Str(x)])
    ensures Sprintf(f + "%s", args + [Str(x)]) == Sprintf(f, args) + x
  {
    SprintfOnlyString(x);
    SprintfAppend(f, args, "%s", [Str(x)]);
  }

  /** A `%d` after a format renders the next integer argument in decimal. */
  lemma SprintfThenInt(f: string, args: seq<Arg>, i: int)
    requires Conforms(f, args)
    ensures Conforms(f + "%d", args + [Int(i)])
    ensures Sprintf(f + "%d", args + [Int(i)]) == Sprintf(f, args) + FormatInt(i)
  {
    SprintfOnlyInt(i);
    SprintfAppend(f, args, "%d", [Int(i)]);
  }

  /** A `%s` and then literal text, after a format. */
  lemma SprintfThenStringText(f: string, args: seq<Arg>, x: string, b: string)
    requires Conforms(f, args) && '%' !in b
    ensures Conforms(f + "%s" + b, args + [Str(x)])
    ensures Sprintf(f + "%s" + b, args + [Str(x)]) == Sprintf(f, args) + x + b
  {
    SprintfThenString(f, args, x);
    SprintfThenLiteral(f + "%s", args + [Str(x)], b);
  }

  /** A `%d` and then literal text, after a format. */
  lemma SprintfThenIntText(f: string, args: seq<Arg>, i: int, b: string)
    requires Conforms(f, args) && '%' !in b
    ensures Conforms(f + "%d" + b, args + [Int(i)])
    ensures Sprintf(f + "%d" + b, args + [Int(i)]) == Sprintf(f, args) + FormatInt(i) + b
  {
    SprintfThenInt(f, args, i);
    SprintfThenLiteral(f + "%d", args + [Int(i)], b);
  }

  /** The shape `a%sb`, for literal texts `a` and `b`. */
  lemma SprintfOne(a: string, x: string, b: string)
    requires '%' !in a && '%' !in b
    ensures Conforms(a + "%s" + b, [Str(x)])
    ensures Sprintf(a + "%s" + b, [Str(x)]) == a + x + b
  {
    SprintfNone(a);
    SprintfThenString(a, [], x);
    assert [] + [Str(x)] == [Str(x)];
    SprintfThenLiteral(a + "%s", [Str(x)], b);
  }

  /** The shape `a%sb%s`, for literal texts `a` and `b`. */
  lemma SprintfTwo(a: string, x: string, b: string, y: string)
    requires '%' !in a && '%' !in b
    ensures Conforms(a + "%s" + b + "%s", [Str(x), Str(y)])
    ensures Sprintf(a + "%s" + b + "%s", [Str(x), Str(y)]) == a + x + b + y
  {
    SprintfOne(a, x, b);
    SprintfThenString(a + "%s" + b, [Str(x)], y);
    assert [Str(x)] + [Str(y)] == [Str(x), Str(y)];
  }
}
