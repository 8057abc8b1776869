/** The Python `str` builtins the filename parser relies on, over `string`:
    `split` on a one-character separator, `replace` and `int()` in base 10,
    together with the whitespace trim `int()` performs. The decimal rendering `ShowInt` is not used by the parser; it
    states what `int()` inverts. */
module PyStr {
  import opened Errors

  /** Index of the first `c` in `s`, or `|s|` when there is none. */
  function Find(s: string, c: char): (i: nat)
    ensures i <= |s|
    ensures forall j :: 0 <= j < i ==> s[j] != c
    ensures i < |s| ==> s[i] == c
  {
    if s == [] || s[0] == c then 0 else 1 + Find(s[1..], c)
  }

  /** A prefix free of `c` is skipped over whole by the search for `c`. */
  lemma {:induction false} FindConcat(f: string, r: string, c: char)
    requires c !in f
    ensures Find(f + r, c) == |f| + Find(r, c)
  {
    if f == [] {
      assert f + r == r;
    } else {
      assert (f + r)[1..] == f[1..] + r;
      FindConcat(f[1..], r, c);
    }
  }

  /** Searching past a prefix free of `c`: the text before the first `c` of
      `f + rest` is `f` followed by the text before the first `c` of `rest`. */
  lemma {:induction false} PrefixThenFind(f: string, rest: string, c: char)
    requires c !in f
    ensures (f + rest)[..Find(f + rest, c)] == f + rest[..Find(rest, c)]
  {
    FindConcat(f, rest, c);
    assert (f + rest)[..|f| + Find(rest, c)] == f + rest[..Find(rest, c)];
  }

  /** Python `s.split(c)`: the text between consecutive occurrences of `c`,
      empty fields included; there is always at least one field. */
  function Split(s: string, c: char): (fields: seq<string>)
    ensures |fields| >= 1
    ensures fields[0] == s[..Find(s, c)]
    ensures c !in s ==> fields == [s]
    ensures c in s ==> |fields| >= 2
    decreases |s|
  {
    var i := Find(s, c);
    if i == |s| then [s] else [s[..i]] + Split(s[i + 1..], c)
  }

  /** Python `c.join(fields)`. */
  function Join(fields: seq<string>, c: char): string
    requires |fields| >= 1
  {
    if |fields| == 1 then fields[0] else fields[0] + [c] + Join(fields[1..], c)
  }

  /** The text before the first `c` holds no `c`. */
  lemma {:induction false} FieldBeforeFree(s: string, c: char)
    ensures c !in s[..Find(s, c)]
  {
    var i := Find(s, c);
    forall j | 0 <= j < i ensures s[..i][j] != c {
      assert s[..i][j] == s[j];
    }
  }

  /** A text is the part before position `i`, the character at `i`, and the
      part after it. */
  lemma {:induction false} AroundIndex(s: string, i: nat)
    requires i < |s|
    ensures s == s[..i] + [s[i]] + s[i + 1..]
  {
    assert s[i..] == [s[i]] + s[i + 1..];
    assert s == s[..i] + s[i..];
  }

  /** The fields of a text that holds a separator: the text before it, then
      the fields of the text after it. */
  lemma {:induction false} SplitStep(s: string, c: char, i: nat)
    requires i == Find(s, c) && i < |s|
    ensures Split(s, c) == [s[..i]] + Split(s[i + 1..], c)
  {
  }

  /** Joining the fields back with the separator gives the original text. */
  lemma {:induction false} SplitJoinRoundTrip(s: string, c: char)
    ensures Join(Split(s, c), c) == s
    decreases |s|
  {
    var i := Find(s, c);
    if i < |s| {
      var rest := Split(s[i + 1..], c);
      SplitJoinRoundTrip(s[i + 1..], c);
      SplitStep(s, c, i);
      AroundIndex(s, i);
      assert ([s[..i]] + rest)[1..] == rest;
    }
  }

  /** No field contains the separator. */
  lemma {:induction false} SplitFieldsFree(s: string, c: char)
    ensures forall f :: f in Split(s, c) ==> c !in f
    decreases |s|
  {
    var i := Find(s, c);
    if i < |s| {
      SplitFieldsFree(s[i + 1..], c);
      SplitStep(s, c, i);
      FieldBeforeFree(s, c);
    }
  }

  /** Splitting loses nothing but the separators: joining the fields back
      gives the original text, and no field contains the separator. */
  lemma {:induction false} SplitJoin(s: string, c: char)
    ensures Join(Split(s, c), c) == s
    ensures forall f :: f in Split(s, c) ==> c !in f
  {
    SplitJoinRoundTrip(s, c);
    SplitFieldsFree(s, c);
  }

  /** The field after the first separator starts right after it. */
  lemma {:induction false} SplitAfterFirst(p: string, c: char, q: string)
    requires c !in p
    ensures Split(p + [c] + q, c) == [p] + Split(q, c)
  {
    var s := p + [c] + q;
    FindConcat(p, [c] + q, c);
    assert s == p + ([c] + q);
    assert s[..|p|] == p;
    assert s[|p| + 1..] == q;
  }

  /** Python `s.replace(pat, rep)` for a non-empty pattern: occurrences of
      `pat` found scanning left to right, without overlap, become `rep`. */
  function Replace(s: string, pat: string, rep: string): string
    requires pat != []
    decreases |s|
  {
    if |pat| <= |s| && s[..|pat|] == pat then rep + Replace(s[|pat|..], pat, rep)
    else if s == [] then []
    else [s[0]] + Replace(s[1..], pat, rep)
  }

  /** Text free of the pattern's first character is returned unchanged. */
  lemma {:induction false} ReplaceAbsent(s: string, pat: string, rep: string)
    requires pat != [] && pat[0] !in s
    ensures Replace(s, pat, rep) == s
    decreases |s|
  {
    if s != [] {
      assert s[0] != pat[0];
      ReplaceAbsent(s[1..], pat, rep);
    }
  }

  /** A prefix free of the pattern's first character passes through and the
      replacement continues after it. */
  lemma {:induction false} ReplaceSkipsPrefix(a: string, b: string, pat: string, rep: string)
    requires pat != [] && pat[0] !in a
    ensures Replace(a + b, pat, rep) == a + Replace(b, pat, rep)
    decreases |a|
  {
    if a == [] {
      assert a + b == b;
    } else {
      var s := a + b;
      assert s[0] == a[0];
      ReplaceNoMatch(s, pat, rep);
      assert s[1..] == a[1..] + b;
      ReplaceSkipsPrefix(a[1..], b, pat, rep);
      assert a == [a[0]] + a[1..];
      assert [a[0]] + (a[1..] + Replace(b, pat, rep)) == a + Replace(b, pat, rep);
    }
  }

  /** Text that does not start with the pattern's first character keeps that
      character, and the replacement goes on after it. */
  lemma {:induction false} ReplaceNoMatch(s: string, pat: string, rep: string)
    requires pat != [] && s != [] && s[0] != pat[0]
    ensures Replace(s, pat, rep) == [s[0]] + Replace(s[1..], pat, rep)
  {
    if |pat| <= |s| {
      assert s[..|pat|][0] != pat[0];
    }
  }

  /** Replacing a one-character pattern by nothing leaves no occurrence of it. */
  lemma {:induction false} ReplaceRemovesChar(s: string, c: char)
    ensures c !in Replace(s, [c], [])
    decreases |s|
  {
    if s != [] {
      ReplaceRemovesChar(s[1..], c);
    }
  }

  predicate IsDigit(ch: char) { '0' <= ch <= '9' }

  predicate AllDigits(s: string) { forall i :: 0 <= i < |s| ==> IsDigit(s[i]) }

  /** The number a string of decimal digits denotes, most significant first. */
  function DecimalValue(d: string): nat
    requires AllDigits(d)
  {
    if d == [] then 0 else DecimalValue(d[..|d| - 1]) * 10 + (d[|d| - 1] as int - '0' as int)
  }

  /** Appending a digit multiplies the value by ten and adds that digit. */
  lemma {:induction false} DecimalValueSnoc(d: string, c: char)
    requires AllDigits(d) && IsDigit(c)
    ensures AllDigits(d + [c])
    ensures DecimalValue(d + [c]) == DecimalValue(d) * 10 + (c as int - '0' as int)
  {
    assert (d + [c])[..|d|] == d;
  }

  function Pow10(k: nat): (r: nat)
    ensures r >= 1
  {
    if k == 0 then 1 else 10 * Pow10(k - 1)
  }

  /** The value of two digit strings written one after the other: the first
      shifted left by the length of the second. */
  lemma {:induction false} DecimalConcat(a: string, b: string)
    requires AllDigits(a) && AllDigits(b)
    ensures AllDigits(a + b)
    ensures DecimalValue(a + b) == DecimalValue(a) * Pow10(|b|) + DecimalValue(b)
    decreases |b|
  {
    assert AllDigits(a + b);
    if b == [] {
      assert a + b == a;
    } else {
      var front := b[..|b| - 1];
      var last := b[|b| - 1];
      assert a + b == (a + front) + [last];
      assert b == front + [last];
      DecimalConcat(a, front);
      DecimalValueSnoc(a + front, last);
      DecimalValueSnoc(front, last);
      ShiftDigit(DecimalValue(a), Pow10(|front|), DecimalValue(front), last as int - '0' as int);
    }
  }

  lemma {:induction false} ShiftDigit(x: int, p: int, f: int, l: int)
    ensures (x * p + f) * 10 + l == x * (10 * p) + (f * 10 + l)
  {
  }

  /** The decimal digits of a natural number, no leading zero, as Python's
      `str(n)` writes them. */
  function ShowNat(n: nat): (d: string)
    ensures d != [] && AllDigits(d)
    ensures DecimalValue(d) == n
    ensures d[0] == '0' ==> n == 0
  {
    if n < 10 then [('0' as int + n) as char]
    else
      var front := ShowNat(n / 10);
      var d := front + [('0' as int + n % 10) as char];
      assert d[..|d| - 1] == front;
      d
  }

  /** The decimal rendering of any integer, as Python's `str(n)` writes it. */
  function ShowInt(n: int): string
  {
    if n < 0 then "-" + ShowNat(-n) else ShowNat(n)
  }

  /** ASCII whitespace as Python's `int()` skips it around a literal: space,
      tab, line feed, vertical tab, form feed and carriage return. The
      information separators 0x1c to 0x1f, which `str.strip()` would also
      remove, are not among them. */
  predicate IsSpace(ch: char) { ch == ' ' || 9 <= ch as int <= 13 }

  function LeadingSpaces(s: string): (n: nat)
    ensures n <= |s|
    ensures forall k :: 0 <= k < n ==> IsSpace(s[k])
    ensures n < |s| ==> !IsSpace(s[n])
  {
    if s != [] && IsSpace(s[0]) then 1 + LeadingSpaces(s[1..]) else 0
  }

  function TrailingSpaces(s: string): (n: nat)
    ensures n <= |s|
    ensures forall k :: |s| - n <= k < |s| ==> IsSpace(s[k])
    ensures n < |s| ==> !IsSpace(s[|s| - 1 - n])
  {
    if s != [] && IsSpace(s[|s| - 1]) then 1 + TrailingSpaces(s[..|s| - 1]) else 0
  }

  /** The text `int()` parses: `s` without the whitespace at either end. */
  function Strip(s: string): (t: string)
    ensures t == [] || (!IsSpace(t[0]) && !IsSpace(t[|t| - 1]))
  {
    var rest := s[LeadingSpaces(s)..];
    rest[..|rest| - TrailingSpaces(rest)]
  }

  /** The body of a base-10 Python integer literal: decimal digits, where a
      single underscore may stand between two digits. */
  predicate IsDigitBody(b: string)
  {
    && b != []
    && IsDigit(b[0]) && IsDigit(b[|b| - 1])
    && (forall i :: 0 <= i < |b| ==> IsDigit(b[i]) || b[i] == '_')
    && (forall i :: 0 <= i < |b| - 1 ==> b[i] == '_' ==> b[i + 1] != '_')
  }

  /** The digits of `s` in order, everything else dropped. */
  function DigitsOf(s: string): (d: string)
    ensures AllDigits(d)
  {
    if s == [] then [] else (if IsDigit(s[0]) then [s[0]] else []) + DigitsOf(s[1..])
  }

  /** Python `int(s)` in base 10: surrounding whitespace, an optional sign and
      a digit body; anything else is a `ValueError`. */
  function ParseInt(s: string): Result<int>
  {
    var t := Strip(s);
    var signed := t != [] && (t[0] == '+' || t[0] == '-');
    var body := if signed then t[1..] else t;
    if !IsDigitBody(body) then Err(ValueError)
    else
      var v: int := DecimalValue(DigitsOf(body));
      Ok(if signed && t[0] == '-' then -v else v)
  }

  lemma {:induction false} DigitsOfDigits(d: string)
    requires AllDigits(d)
    ensures DigitsOf(d) == d
  {
    if d != [] {
      DigitsOfDigits(d[1..]);
    }
  }

  /** Text without whitespace at either end is left alone by the trim. */
  lemma {:induction false} StripPlain(s: string)
    requires s == [] || (!IsSpace(s[0]) && !IsSpace(s[|s| - 1]))
    ensures Strip(s) == s
  {
    assert LeadingSpaces(s) == 0;
    assert s[0..] == s;
    assert TrailingSpaces(s) == 0;
  }

  /** A plain run of decimal digits parses to the number it denotes. */
  lemma {:induction false} ParseDigits(d: string)
    requires d != [] && AllDigits(d)
    ensures ParseInt(d) == Ok(DecimalValue(d))
  {
    assert !IsSpace(d[0]) && !IsSpace(d[|d| - 1]);
    StripPlain(d);
    assert !(d[0] == '+' || d[0] == '-');
    DigitsOfDigits(d);
    assert IsDigitBody(d);
  }

  /** A minus sign followed by decimal digits parses to the negated value. */
  lemma {:induction false} ParseNegated(d: string)
    requires d != [] && AllDigits(d)
    ensures ParseInt("-" + d) == Ok(-(DecimalValue(d) as int))
  {
    var s := "-" + d;
    assert s[0] == '-' && s[|s| - 1] == d[|d| - 1];
    StripPlain(s);
    assert s[1..] == d;
    DigitsOfDigits(d);
    assert IsDigitBody(d);
  }

  /** `str(n)` of a negative `n` is a minus sign and the digits of `-n`. */
  lemma {:induction false} ShowNegative(n: int)
    requires n < 0
    ensures ShowInt(n) == "-" + ShowNat(-n)
  {
  }

  lemma {:induction false} ParseShowNat(n: nat)
    ensures ParseInt(ShowNat(n)) == Ok(n)
  {
    ParseDigits(ShowNat(n));
  }

  lemma {:induction false} ParseShowNegative(n: int)
    requires n < 0
    ensures ParseInt("-" + ShowNat(-n)) == Ok(n)
  {
    ParseNegated(ShowNat(-n));
  }

  /** `int(str(n)) == n` for every integer. */
  lemma {:induction false} ParseShowInt(n: int)
    ensures ParseInt(ShowInt(n)) == Ok(n)
  {
    if n >= 0 {
      ParseShowNat(n);
    } else {
      ShowNegative(n);
      ParseShowNegative(n);
    }
  }

  /** The characters `int()` can accept. */
  predicate IsIntChar(ch: char) { IsDigit(ch) || ch == '_' || ch == '+' || ch == '-' || IsSpace(ch) }

  /** Stripping only removes whitespace: every other character of `s` is
      a character of `Strip(s)`, and `Strip(s)` is a part of `s`. */
  lemma {:induction false} StripOnlySpaces(s: string)
    ensures forall k :: 0 <= k < |s| ==> IsSpace(s[k]) || s[k] in Strip(s)
    ensures forall ch :: ch in Strip(s) ==> ch in s
  {
    var lead := LeadingSpaces(s);
    var rest := s[lead..];
    var trail := TrailingSpaces(rest);
    var t := rest[..|rest| - trail];
    assert Strip(s) == t;
    forall k | 0 <= k < |s| && !IsSpace(s[k]) ensures s[k] in t {
      assert lead <= k;
      assert s[k] == rest[k - lead];
      assert k - lead < |rest| - trail;
      assert t[k - lead] == s[k];
    }
    forall ch | ch in t ensures ch in s {
      var j :| 0 <= j < |t| && t[j] == ch;
      assert s[lead + j] == ch;
    }
  }

  /** A sign followed by a digit body uses only the characters of an integer
      literal and holds a digit. */
  lemma {:induction false} SignedBodyChars(t: string, signed: bool)
    requires signed ==> t != [] && (t[0] == '+' || t[0] == '-')
    requires IsDigitBody(if signed then t[1..] else t)
    ensures forall ch :: ch in t ==> IsIntChar(ch)
    ensures exists k :: 0 <= k < |t| && IsDigit(t[k])
  {
    var body := if signed then t[1..] else t;
    var off := if signed then 1 else 0;
    assert t[off..] == body;
    forall ch | ch in t ensures IsIntChar(ch) {
      var j :| 0 <= j < |t| && t[j] == ch;
      if j >= off {
        assert body[j - off] == ch;
      }
    }
    assert t[off] == body[0];
  }

  /** Text whose stripped form is an optional sign and a digit body uses only
      the characters of an integer literal and holds a digit. */
  lemma {:induction false} StrippedLiteralChars(s: string, t: string, signed: bool)
    requires t == Strip(s) && signed == (t != [] && (t[0] == '+' || t[0] == '-'))
    requires IsDigitBody(if signed then t[1..] else t)
    ensures forall k :: 0 <= k < |s| ==> IsIntChar(s[k])
    ensures exists k :: 0 <= k < |s| && IsDigit(s[k])
  {
    StripOnlySpaces(s);
    SignedBodyChars(t, signed);
    var j :| 0 <= j < |t| && IsDigit(t[j]);
    assert t[j] in s;
  }

  /** `int(s)` fails with `ValueError` on text holding any other character or
      no digit at all (an empty field, `png`, `12a`). */
  lemma {:induction false} ParseIntAlphabet(s: string)
    ensures ParseInt(s).Ok? ==> forall k :: 0 <= k < |s| ==> IsIntChar(s[k])
    ensures ParseInt(s).Ok? ==> exists k :: 0 <= k < |s| && IsDigit(s[k])
  {
    if ParseInt(s).Ok? {
      var t := Strip(s);
      var signed := t != [] && (t[0] == '+' || t[0] == '-');
      StrippedLiteralChars(s, t, signed);
    }
  }

  /** `int()` of text holding a character no integer literal has raises
      `ValueError`. */
  lemma {:induction false} ParseIntRejects(s: string, k: nat)
    requires k < |s| && !IsIntChar(s[k])
    ensures ParseInt(s) == Err(ValueError)
  {
    ParseIntAlphabet(s);
  }

  /** An information separator is not whitespace to `int()`: `int("\x1c5")`
      raises `ValueError`. */
  lemma {:induction false} SeparatorIsNotSpace()
    ensures ParseInt([28 as char, '5']) == Err(ValueError)
  {
    ParseIntRejects([28 as char, '5'], 0);
  }
}
