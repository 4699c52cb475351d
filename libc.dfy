/** The pieces of the C library that the protocol code leans on for its text
    handling: `strtok` (tokenising a line on a set of delimiter characters),
    `atol` (reading a decimal integer) and the `%ld` conversion of `printf`.
    Each is given as a function and specified against an independent
    description: `strtok` against a split-then-drop-empty-fields definition,
    `%ld` and `atol` against each other. */
module LibC {

  datatype Option<T> = None | Some(value: T)

  /** No character of `s` is in `cs`. */
  predicate NoneIn(s: string, cs: set<char>)
  {
    forall i :: 0 <= i < |s| ==> s[i] !in cs
  }

  /** Every character of `s` is in `cs`. */
  predicate AllIn(s: string, cs: set<char>)
  {
    forall i :: 0 <= i < |s| ==> s[i] in cs
  }

  // ---------------------------------------------------------------------------
  // Spans (what strspn and strcspn compute, from a start index)
  // ---------------------------------------------------------------------------

  /** The end of the run of characters in `cs` that starts at `i`. */
  function SpanIn(s: string, i: nat, cs: set<char>): (j: nat)
    requires i <= |s|
    ensures i <= j <= |s|
    ensures AllIn(s[i..j], cs)
    ensures j < |s| ==> s[j] !in cs
    decreases |s| - i
  {
    if i < |s| && s[i] in cs then SpanIn(s, i + 1, cs) else i
  }

  /** The end of the run of characters not in `cs` that starts at `i`. */
  function SpanNotIn(s: string, i: nat, cs: set<char>): (j: nat)
    requires i <= |s|
    ensures i <= j <= |s|
    ensures NoneIn(s[i..j], cs)
    ensures j < |s| ==> s[j] in cs
    decreases |s| - i
  {
    if i < |s| && s[i] !in cs then SpanNotIn(s, i + 1, cs) else i
  }

  // ---------------------------------------------------------------------------
  // Tokens: the reference description of what repeated strtok calls return
  // ---------------------------------------------------------------------------

  /** The fields of `s` between delimiters, empty ones included: a string
      with k delimiters has k + 1 fields. */
  function Fields(s: string, delims: set<char>): (r: seq<string>)
    ensures |r| >= 1
    decreases |s|
  {
    if s == [] then [[]]
    else
      var rest := Fields(s[1..], delims);
      if s[0] in delims then [[]] + rest
      else [[s[0]] + rest[0]] + rest[1..]
  }

  function DropEmpty(fs: seq<string>): seq<string>
  {
    if fs == [] then []
    else (if fs[0] == [] then [] else [fs[0]]) + DropEmpty(fs[1..])
  }

  /** The maximal non-empty runs of non-delimiter characters of `s`, in order. */
  function Tokens(s: string, delims: set<char>): seq<string>
  {
    DropEmpty(Fields(s, delims))
  }

  lemma {:induction false} DropEmptyAppend(a: seq<string>, b: seq<string>)
    ensures DropEmpty(a + b) == DropEmpty(a) + DropEmpty(b)
    decreases |a|
  {
    if a != [] {
      assert (a + b)[1..] == a[1..] + b;
      DropEmptyAppend(a[1..], b);
    } else {
      assert a + b == b;
    }
  }

  lemma {:induction false} FieldsJoin(a: string, d: char, b: string, delims: set<char>)
    requires d in delims
    ensures Fields(a + [d] + b, delims) == Fields(a, delims) + Fields(b, delims)
    decreases |a|
  {
    if a == [] {
      assert a + [d] + b == [d] + b;
      assert ([d] + b)[1..] == b;
    } else {
      assert (a + [d] + b)[1..] == a[1..] + [d] + b;
      FieldsJoin(a[1..], d, b, delims);
    }
  }

  lemma {:induction false} FieldsOfWord(w: string, delims: set<char>)
    requires NoneIn(w, delims)
    ensures Fields(w, delims) == [w]
    decreases |w|
  {
    if w != [] {
      FieldsOfWord(w[1..], delims);
      assert [w[0]] + w[1..] == w;
    }
  }

  lemma {:induction false} FieldsShape(s: string, delims: set<char>)
    ensures forall k :: 0 <= k < |Fields(s, delims)| ==> NoneIn(Fields(s, delims)[k], delims)
    decreases |s|
  {
    if s != [] {
      FieldsShape(s[1..], delims);
    }
  }

  lemma {:induction false} DropEmptyShape(fs: seq<string>, delims: set<char>)
    requires forall k :: 0 <= k < |fs| ==> NoneIn(fs[k], delims)
    ensures forall k :: 0 <= k < |DropEmpty(fs)| ==>
      DropEmpty(fs)[k] != [] && NoneIn(DropEmpty(fs)[k], delims)
    decreases |fs|
  {
    if fs != [] {
      DropEmptyShape(fs[1..], delims);
    }
  }

  /** Every token is non-empty and free of delimiters. */
  lemma TokensShape(s: string, delims: set<char>)
    ensures forall k :: 0 <= k < |Tokens(s, delims)| ==>
      Tokens(s, delims)[k] != [] && NoneIn(Tokens(s, delims)[k], delims)
  {
    FieldsShape(s, delims);
    DropEmptyShape(Fields(s, delims), delims);
  }

  /** A delimiter splits the token list: the tokens on its left, then those on its right. */
  lemma TokensJoin(a: string, d: char, b: string, delims: set<char>)
    requires d in delims
    ensures Tokens(a + [d] + b, delims) == Tokens(a, delims) + Tokens(b, delims)
  {
    FieldsJoin(a, d, b, delims);
    DropEmptyAppend(Fields(a, delims), Fields(b, delims));
  }

  /** A non-empty delimiter-free string is a single token. */
  lemma TokensOfWord(w: string, delims: set<char>)
    requires w != [] && NoneIn(w, delims)
    ensures Tokens(w, delims) == [w]
  {
    FieldsOfWord(w, delims);
    assert DropEmpty([w]) == [w] + DropEmpty([]);
  }

  lemma TokensOfEmpty(delims: set<char>)
    ensures Tokens([], delims) == []
  {
    assert Fields([], delims) == [[]];
    assert DropEmpty([[]]) == [] + DropEmpty([]);
  }

  /** Delimiters in front of a string contribute no tokens. */
  lemma {:induction false} TokensSkipDelims(p: string, x: string, delims: set<char>)
    requires AllIn(p, delims)
    ensures Tokens(p + x, delims) == Tokens(x, delims)
    decreases |p|
  {
    if p != [] {
      assert p + x == [] + [p[0]] + (p[1..] + x);
      TokensJoin([], p[0], p[1..] + x, delims);
      TokensOfEmpty(delims);
      TokensSkipDelims(p[1..], x, delims);
    } else {
      assert p + x == x;
    }
  }

  // ---------------------------------------------------------------------------
  // strtok
  // ---------------------------------------------------------------------------

  lemma TokensFrom(s: string, pos: nat, b: nat, delims: set<char>)
    requires pos <= b <= |s| && AllIn(s[pos..b], delims)
    ensures Tokens(s[pos..], delims) == Tokens(s[b..], delims)
  {
    assert s[pos..] == s[pos..b] + s[b..];
    TokensSkipDelims(s[pos..b], s[b..], delims);
  }

  lemma TokensAtWord(s: string, b: nat, e: nat, delims: set<char>)
    requires b < e <= |s| && NoneIn(s[b..e], delims) && (e < |s| ==> s[e] in delims)
    ensures Tokens(s[b..], delims) == [s[b..e]] + Tokens(s[if e < |s| then e + 1 else e..], delims)
  {
    TokensOfWord(s[b..e], delims);
    if e < |s| {
      assert s[b..] == s[b..e] + [s[e]] + s[e + 1..];
      TokensJoin(s[b..e], s[e], s[e + 1..], delims);
    } else {
      assert s[b..] == s[b..e];
      TokensOfEmpty(delims);
    }
  }

  /** One call of `strtok` on string `s` whose saved position is `pos` (0 on
      the first call): skip delimiters, return the run up to the next
      delimiter (which strtok overwrites with NUL, so the saved position moves
      past it) and the new saved position; NULL (`None`) when only delimiters
      are left. */
  function StrTok(s: string, pos: nat, delims: set<char>): (r: Option<(string, nat)>)
    requires pos <= |s|
    ensures r.Some? ==> pos < r.value.1 <= |s|
    ensures r.None? <==> Tokens(s[pos..], delims) == []
    ensures r.Some? ==> Tokens(s[pos..], delims) == [r.value.0] + Tokens(s[r.value.1..], delims)
  {
    var b := SpanIn(s, pos, delims);
    TokensFrom(s, pos, b, delims);
    if b == |s| then
      TokensOfEmpty(delims);
      None
    else
      var e := SpanNotIn(s, b, delims);
      TokensAtWord(s, b, e, delims);
      Some((s[b..e], if e < |s| then e + 1 else e))
  }

  // ---------------------------------------------------------------------------
  // Decimal digits, %ld and atol
  // ---------------------------------------------------------------------------

  const Digits: set<char> := {'0', '1', '2', '3', '4', '5', '6', '7', '8', '9'}

  /** The characters `isspace` accepts in the C locale. */
  const Spaces: set<char> := {' ', '\t', '\n', '\U{B}', '\U{C}', '\r'}

  function DigitChar(d: nat): (c: char)
    requires d < 10
    ensures c in Digits
  {
    ['0', '1', '2', '3', '4', '5', '6', '7', '8', '9'][d]
  }

  function DigitValue(c: char): (d: nat)
    requires c in Digits
    ensures d < 10 && DigitChar(d) == c
  {
    (c as int - '0' as int) as nat
  }

  /** The number a string of decimal digits denotes (empty: 0). */
  function DigitsValue(s: string): nat
    requires AllIn(s, Digits)
  {
    if s == [] then 0
    else 10 * DigitsValue(s[..|s| - 1]) + DigitValue(s[|s| - 1])
  }

  /** The shortest decimal numeral for `n`: digits only, no leading zero
      except in "0" itself. */
  function DecimalNat(n: nat): (r: string)
    ensures r != [] && AllIn(r, Digits)
    ensures |r| > 1 ==> r[0] != '0'
    decreases n
  {
    if n < 10 then [DigitChar(n)] else DecimalNat(n / 10) + [DigitChar(n % 10)]
  }

  /** The `%ld` conversion: a minus sign for negative values, then the digits. */
  function FormatLong(n: int): (r: string)
    ensures r != [] && AllIn(r, Digits + {'-'})
    ensures n >= 0 <==> AllIn(r, Digits)
  {
    if n < 0 then
      var r := "-" + DecimalNat(-n);
      assert r[0] !in Digits;
      r
    else DecimalNat(n)
  }

  /** `atol`: skip leading white space, read an optional sign and then the
      longest run of digits; no digits gives 0. Out-of-range values are
      undefined in C and are given their mathematical value here. */
  function Atol(s: string): (v: int)
    ensures v < 0 ==> '-' in s
    ensures NoneIn(s, Digits) ==> v == 0
  {
    var i := SpanIn(s, 0, Spaces);
    var j := if i < |s| && (s[i] == '-' || s[i] == '+') then i + 1 else i;
    var k := SpanIn(s, j, Digits);
    var v: int := DigitsValue(s[j..k]);
    if i < |s| && s[i] == '-' then -v else v
  }

  lemma {:induction false} DigitsValueOfDecimal(n: nat)
    ensures DigitsValue(DecimalNat(n)) == n
    decreases n
  {
    var r := DecimalNat(n);
    if n >= 10 {
      DigitsValueOfDecimal(n / 10);
      assert r[..|r| - 1] == DecimalNat(n / 10);
    }
  }

  lemma SpanOfAll(s: string, i: nat, cs: set<char>)
    requires i <= |s| && AllIn(s[i..], cs)
    ensures SpanIn(s, i, cs) == |s|
  {
    forall k | i <= k < |s|
      ensures s[k] in cs
    {
      assert s[k] == s[i..][k - i];
    }
  }

  /** `atol` reads back what `%ld` wrote. */
  lemma AtolFormatLong(n: int)
    ensures Atol(FormatLong(n)) == n
  {
    var s := FormatLong(n);
    var d := DecimalNat(if n < 0 then -n else n);
    DigitsValueOfDecimal(if n < 0 then -n else n);
    assert SpanIn(s, 0, Spaces) == 0;
    if n < 0 {
      assert s[1..] == d;
      SpanOfAll(s, 1, Digits);
      assert s[1..|s|] == d;
    } else {
      assert s[0] != '-' && s[0] != '+';
      SpanOfAll(s, 0, Digits);
      assert s[0..|s|] == s;
    }
  }

  /** A token that does not start with white space, a sign or a digit reads as 0. */
  lemma AtolOfJunk(s: string)
    requires s != [] && s[0] !in Spaces && s[0] !in Digits && s[0] != '-' && s[0] != '+'
    ensures Atol(s) == 0
  {
  }
}
