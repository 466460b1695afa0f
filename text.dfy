/** Character and string helpers shared by the parsers and writers of the
    pipeline: whitespace tokenising as `operator>>` on a string stream does
    it, ASCII lower-casing as `::tolower` does in the C locale, decimal
    rendering of integers as `operator<<` does it, and a model of
    `std::stod` as a partial parse. */
module Text {

  datatype Option<+T> = None | Some(value: T)

  /** `isspace` in the C locale. */
  predicate IsSpace(c: char) {
    c == ' ' || c == '\t' || c == '\n' || c == '\r' || c == '\U{0B}' || c == '\U{0C}'
  }

  predicate AllSpace(s: string) {
    forall i :: 0 <= i < |s| ==> IsSpace(s[i])
  }

  /** A token as `>>` extracts it into a string: non-empty, no whitespace. */
  predicate IsWord(w: string) {
    |w| > 0 && forall i :: 0 <= i < |w| ==> !IsSpace(w[i])
  }

  // ---------------------------------------------------------------------
  // Whitespace tokens

  /** The longest prefix of `s` that holds no whitespace. */
  function Word(s: string): (w: string)
    ensures |w| <= |s| && w == s[..|w|]
    ensures forall i :: 0 <= i < |w| ==> !IsSpace(w[i])
    ensures |w| < |s| ==> IsSpace(s[|w|])
  {
    if s == [] || IsSpace(s[0]) then [] else [s[0]] + Word(s[1..])
  }

  /** The tokens that `while (iss >> token)` extracts from one line. */
  function Tokens(s: string): (ts: seq<string>)
    ensures forall k :: 0 <= k < |ts| ==> IsWord(ts[k])
    decreases |s|
  {
    if s == [] then []
    else if IsSpace(s[0]) then Tokens(s[1..])
    else
      var w := Word(s);
      [w] + Tokens(s[|w|..])
  }

  /** Leading whitespace contributes no token. */
  lemma {:induction false} TokensSkipSpace(sp: string, s: string)
    requires AllSpace(sp)
    ensures Tokens(sp + s) == Tokens(s)
  {
    if sp == [] {
      assert sp + s == s;
    } else {
      assert (sp + s)[1..] == sp[1..] + s;
      TokensSkipSpace(sp[1..], s);
    }
  }

  /** A word followed by whitespace (or nothing) is extracted whole. */
  lemma TokensWordFirst(w: string, s: string)
    requires IsWord(w)
    requires s == [] || IsSpace(s[0])
    ensures Tokens(w + s) == [w] + Tokens(s)
  {
    WordOfPrefix(w, s);
    assert (w + s)[|w|..] == s;
  }

  /** `Word` stops exactly at the end of a word followed by whitespace. */
  lemma {:induction false} WordOfPrefix(w: string, s: string)
    requires forall i :: 0 <= i < |w| ==> !IsSpace(w[i])
    requires s == [] || IsSpace(s[0])
    ensures Word(w + s) == w
  {
    if w == [] {
      assert w + s == s;
    } else {
      assert (w + s)[1..] == w[1..] + s;
      WordOfPrefix(w[1..], s);
    }
  }

  /** The words joined with `sep` between them, as the writers of the
      `.ids` and `.eigenvalues` files emit them. */
  function Join(ws: seq<string>, sep: string): string {
    if ws == [] then ""
    else if |ws| == 1 then ws[0]
    else ws[0] + sep + Join(ws[1..], sep)
  }

  /** Reading back a space-joined sequence of words gives the words. */
  lemma {:induction false} TokensOfJoin(ws: seq<string>)
    requires forall k :: 0 <= k < |ws| ==> IsWord(ws[k])
    ensures Tokens(Join(ws, " ")) == ws
  {
    if |ws| == 1 {
      TokensWordFirst(ws[0], "");
      assert ws[0] + "" == ws[0];
    } else if |ws| > 1 {
      var rest := Join(ws[1..], " ");
      assert Join(ws, " ") == ws[0] + (" " + rest);
      TokensWordFirst(ws[0], " " + rest);
      TokensSkipSpace(" ", rest);
      TokensOfJoin(ws[1..]);
    }
  }

  /** Joining one more word appends the separator and the word. */
  lemma {:induction false} JoinSnoc(ws: seq<string>, w: string, sep: string)
    requires |ws| > 0
    ensures Join(ws + [w], sep) == Join(ws, sep) + sep + w
  {
    if |ws| == 1 {
      assert (ws + [w])[1..] == [w];
    } else {
      assert (ws + [w])[1..] == ws[1..] + [w];
      JoinSnoc(ws[1..], w, sep);
    }
  }

  // ---------------------------------------------------------------------
  // Case and prefixes

  /** `::tolower` on one character in the C locale. */
  function LowerChar(c: char): char {
    if 'A' <= c <= 'Z' then (c as int + 32) as char else c
  }

  /** `std::transform(..., ::tolower)` over a whole string. */
  function ToLower(s: string): (r: string)
    ensures |r| == |s|
  {
    seq(|s|, i requires 0 <= i < |s| => LowerChar(s[i]))
  }

  predicate StartsWith(s: string, prefix: string) {
    |prefix| <= |s| && s[..|prefix|] == prefix
  }

  // ---------------------------------------------------------------------
  // Integers rendered in decimal

  predicate IsDigit(c: char) {
    '0' <= c <= '9'
  }

  function DigitChar(d: nat): (c: char)
    requires d < 10
    ensures IsDigit(c) && DigitValue(c) == d
  {
    ('0' as int + d) as char
  }

  /** `operator<<` on a non-negative integer. */
  function NatToString(n: nat): (s: string)
    ensures |s| > 0 && AllDigits(s)
  {
    if n < 10 then [DigitChar(n)] else NatToString(n / 10) + [DigitChar(n % 10)]
  }

  /** `operator<<` on an integer. */
  function IntToString(i: int): (s: string)
    ensures IsWord(s)
    ensures forall k :: 0 <= k < |s| ==> s[k] != ','
  {
    if i < 0 then "-" + NatToString(-i) else NatToString(i)
  }

  /** Spaces that `std::setw(width)` puts before a shorter field. */
  function Spaces(n: nat): (s: string)
    ensures |s| == n && AllSpace(s)
  {
    seq(n, _ => ' ')
  }

  /** `std::setw(width) << s`: right-aligned, never truncated. */
  function PadLeft(s: string, width: nat): string {
    (if |s| < width then Spaces(width - |s|) else "") + s
  }

  // ---------------------------------------------------------------------
  // std::stod

  predicate AllDigits(s: string) {
    forall i :: 0 <= i < |s| ==> IsDigit(s[i])
  }

  /** The longest prefix of `s` made of decimal digits. */
  function DigitRun(s: string): (d: string)
    ensures |d| <= |s| && d == s[..|d|]
    ensures AllDigits(d)
    ensures |d| < |s| ==> !IsDigit(s[|d|])
  {
    if s == [] || !IsDigit(s[0]) then [] else [s[0]] + DigitRun(s[1..])
  }

  function DigitValue(c: char): nat
    requires IsDigit(c)
  {
    c as int - '0' as int
  }

  /** The value of a string of decimal digits, most significant first. */
  function DigitsValue(ds: string): nat
    requires AllDigits(ds)
  {
    if ds == [] then 0
    else DigitsValue(ds[..|ds| - 1]) * 10 + DigitValue(ds[|ds| - 1])
  }

  function SkipSpace(s: string): (r: string)
    ensures |r| <= |s|
    ensures r == [] || !IsSpace(r[0])
  {
    if s != [] && IsSpace(s[0]) then SkipSpace(s[1..]) else s
  }

  /** Leading whitespace is skipped whatever its length. */
  lemma {:induction false} SkipSpaceAfter(sp: string, s: string)
    requires AllSpace(sp)
    ensures SkipSpace(sp + s) == SkipSpace(s)
  {
    if sp == [] {
      assert sp + s == s;
    } else {
      assert (sp + s)[1..] == sp[1..] + s;
      SkipSpaceAfter(sp[1..], s);
    }
  }

  /** The text after an optional leading sign, and whether the sign was '-'. */
  function Unsigned(t: string): (string, bool) {
    if |t| > 0 && (t[0] == '+' || t[0] == '-') then (t[1..], t[0] == '-') else (t, false)
  }

  /** A decimal exponent `e[+-]digits` at the head of `s`, if complete. */
  function Exponent(s: string): int {
    if |s| >= 2 && (s[0] == 'e' || s[0] == 'E') then
      var (u, negative) := Unsigned(s[1..]);
      var ds := DigitRun(u);
      if ds == [] then 0 else if negative then -(DigitsValue(ds) as int) else DigitsValue(ds)
    else 0
  }

  /** `m` times ten to the power `e`. */
  function Scale(m: real, e: int): real
    decreases if e >= 0 then e else -e
  {
    if e == 0 then m
    else if e > 0 then 10.0 * Scale(m, e - 1)
    else Scale(m, e + 1) / 10.0
  }

  /** Whether `std::stod` finds a number at the head of `s`: after
      whitespace and an optional sign, a digit, or a point and a digit. */
  predicate HasNumericPrefix(s: string) {
    var u := Unsigned(SkipSpace(s)).0;
    |u| > 0 && (IsDigit(u[0]) || (|u| > 1 && u[0] == '.' && IsDigit(u[1])))
  }

  /** `std::stod(s)` on decimal input: leading whitespace, an optional
      sign, digits with an optional fraction and an optional exponent; the
      text after the number is ignored. `None` is the `invalid_argument`
      exception, raised when no digit is found. */
  function ParseReal(s: string): Option<real> {
    ParseSigned(SkipSpace(s))
  }

  /** The number at the head of text that starts after the whitespace. */
  function ParseSigned(t: string): Option<real> {
    var (u, negative) := Unsigned(t);
    var m := ParseMagnitude(u);
    if m.None? then None else Some(if negative then -m.value else m.value)
  }

  /** The unsigned number at the head of `u`: the digits before and after
      the point read as one integer, scaled by the exponent less the
      number of fraction digits. */
  function ParseMagnitude(u: string): Option<real> {
    var whole := DigitRun(u);
    var rest := u[|whole|..];
    if |rest| > 0 && rest[0] == '.' then
      var frac := DigitRun(rest[1..]);
      if |whole| + |frac| == 0 then None
      else Some(Scale(DigitsValue(whole + frac) as real, Exponent(rest[1 + |frac|..]) - |frac|))
    else if whole == [] then None
    else Some(Scale(DigitsValue(whole) as real, Exponent(rest)))
  }

  /** `std::stod` fails exactly when the text does not start with a number. */
  lemma ParseRealDefined(s: string)
    ensures ParseReal(s).Some? <==> HasNumericPrefix(s)
  {
    var u := Unsigned(SkipSpace(s)).0;
    var whole := DigitRun(u);
    if |u| > 0 && IsDigit(u[0]) {
      assert |whole| > 0;
    } else if |u| > 0 {
      assert whole == [];
      assert u[|whole|..] == u;
      if |u| > 1 && u[0] == '.' && IsDigit(u[1]) {
        assert |DigitRun(u[1..])| > 0;
      }
    }
  }

  lemma {:induction false} DigitsValueOfNat(n: nat)
    ensures DigitsValue(NatToString(n)) == n
  {
    var s := NatToString(n);
    if n >= 10 {
      DigitsValueOfNat(n / 10);
      assert s[..|s| - 1] == NatToString(n / 10);
    }
  }

  /** A digit string followed by a non-digit is read as one run. */
  lemma {:induction false} DigitRunOfDigits(ds: string, rest: string)
    requires AllDigits(ds)
    requires rest == [] || !IsDigit(rest[0])
    ensures DigitRun(ds + rest) == ds
  {
    if ds == [] {
      assert ds + rest == rest;
    } else {
      assert (ds + rest)[1..] == ds[1..] + rest;
      DigitRunOfDigits(ds[1..], rest);
    }
  }

  // ---------------------------------------------------------------------
  // Stream extraction of integers and characters

  /** `stream >> i` for an `int`: skips whitespace, then reads an optional
      sign and at least one digit. `None` is the stream's fail state; on
      success the value and the unread text are returned. */
  function ReadInt(s: string): (r: Option<(int, string)>)
    ensures r.Some? ==> |r.value.1| < |s|
  {
    var (u, negative) := Unsigned(SkipSpace(s));
    var ds := DigitRun(u);
    if ds == [] then None
    else Some((if negative then -(DigitsValue(ds) as int) else DigitsValue(ds), u[|ds|..]))
  }

  /** `k` successive `>> int` extractions. */
  function ReadInts(s: string, k: nat): (r: Option<(seq<int>, string)>)
    ensures r.Some? ==> |r.value.0| == k
    decreases k
  {
    if k == 0 then Some(([], s))
    else
      var first := ReadInt(s);
      if first.None? then None
      else
        var more := ReadInts(first.value.1, k - 1);
        if more.None? then None else Some(([first.value.0] + more.value.0, more.value.1))
  }

  /** `stream >> c` for a `char`: skips whitespace and takes one character. */
  function ReadChar(s: string): (r: Option<(char, string)>)
    ensures r.Some? ==> !IsSpace(r.value.0)
  {
    var t := SkipSpace(s);
    if t == [] then None else Some((t[0], t[1..]))
  }

  /** The integers rendered by `operator<<`, separated by single spaces. */
  function IntsLine(xs: seq<int>): string {
    if xs == [] then ""
    else if |xs| == 1 then IntToString(xs[0])
    else IntToString(xs[0]) + " " + IntsLine(xs[1..])
  }

  /** Extracting an integer that `operator<<` wrote gives it back, and
      leaves the text after it unread. */
  lemma ReadIntToString(i: int, rest: string)
    requires rest == [] || IsSpace(rest[0])
    ensures ReadInt(IntToString(i) + rest) == Some((i, rest))
  {
    var m: nat := if i < 0 then -i else i;
    var ds := NatToString(m);
    DigitsValueOfNat(m);
    DigitRunOfDigits(ds, rest);
    var u := ds + rest;
    assert u[|ds|..] == rest;
    if i < 0 {
      assert IntToString(i) + rest == "-" + u;
      ReadIntBy("-" + u, u, true, ds, rest);
    } else {
      assert IntToString(i) + rest == u;
      ReadIntBy(u, u, false, ds, rest);
    }
  }

  /** One `>> int` from text that starts with its sign or first digit. */
  lemma ReadIntBy(s: string, u: string, negative: bool, ds: string, rest: string)
    requires |s| > 0 && !IsSpace(s[0])
    requires Unsigned(s) == (u, negative)
    requires |ds| > 0 && DigitRun(u) == ds && u[|ds|..] == rest
    ensures ReadInt(s) == Some((if negative then -(DigitsValue(ds) as int) else DigitsValue(ds), rest))
  {
    assert SkipSpace(s) == s;
  }

  /** Reading back a line of integers written by `IntsLine`, followed by
      whitespace or nothing, gives the integers in order. */
  lemma {:induction false} ReadIntsLine(xs: seq<int>, rest: string)
    requires rest == [] || IsSpace(rest[0])
    ensures ReadInts(IntsLine(xs) + rest, |xs|) == Some((xs, rest))
    decreases |xs|, 1
  {
    if |xs| == 0 {
      assert IntsLine(xs) + rest == rest;
    } else if |xs| == 1 {
      assert IntsLine(xs) == IntToString(xs[0]);
      ReadIntToString(xs[0], rest);
      assert [xs[0]] + [] == xs;
      ReadIntsCons(IntsLine(xs) + rest, xs[0], rest, [], rest, 1);
    } else {
      ReadIntsLineCons(xs, rest);
    }
  }

  lemma {:induction false} ReadIntsLineCons(xs: seq<int>, rest: string)
    requires |xs| > 1
    requires rest == [] || IsSpace(rest[0])
    ensures ReadInts(IntsLine(xs) + rest, |xs|) == Some((xs, rest))
    decreases |xs|, 0
  {
    var head, tail := IntToString(xs[0]), IntsLine(xs[1..]);
    IntsLineCons(xs);
    ReadIntBeforeSpace(xs[0], tail + rest);
    ReadIntsLine(xs[1..], rest);
    ReadIntsStep(IntsLine(xs), head, tail, rest, xs, |xs|);
  }

  lemma ReadIntBeforeSpace(i: int, t: string)
    ensures ReadInt(IntToString(i) + (" " + t)) == Some((i, " " + t))
  {
    ReadIntToString(i, " " + t);
  }

  lemma IntsLineCons(xs: seq<int>)
    requires |xs| > 1
    ensures IntsLine(xs) == IntToString(xs[0]) + " " + IntsLine(xs[1..])
  {
  }

  lemma ReadIntsStep(line: string, head: string, tail: string, rest: string, xs: seq<int>, k: nat)
    requires k > 1 && |xs| == k
    requires line == head + " " + tail
    requires ReadInt(head + (" " + (tail + rest))) == Some((xs[0], " " + (tail + rest)))
    requires ReadInts(tail + rest, k - 1) == Some((xs[1..], rest))
    ensures ReadInts(line + rest, k) == Some((xs, rest))
  {
    var x, ys := xs[0], xs[1..];
    Regroup(head, " ", tail, rest);
    var after := " " + (tail + rest);
    assert after[1..] == tail + rest;
    ReadIntsSkipSpace(after, tail + rest, k - 1);
    assert ReadInt(line + rest) == Some((x, after));
    ReadIntsCons(line + rest, x, after, ys, rest, k);
    assert [x] + ys == xs;
  }

  lemma Regroup(a: string, b: string, c: string, d: string)
    ensures a + b + c + d == a + (b + (c + d))
  {
  }

  lemma ReadIntsCons(s: string, x: int, after: string, ys: seq<int>, rest: string, k: nat)
    requires k > 0
    requires ReadInt(s) == Some((x, after))
    requires ReadInts(after, k - 1) == Some((ys, rest))
    ensures ReadInts(s, k) == Some(([x] + ys, rest))
  {
  }

  /** An integer right-aligned to any width, as `setw` writes it, is read
      back whole by `>>`. */
  lemma ReadPadded(i: int, width: nat, rest: string)
    requires rest == [] || IsSpace(rest[0])
    ensures ReadInt(PadLeft(IntToString(i), width) + rest) == Some((i, rest))
  {
    var w := IntToString(i);
    var pad := if |w| < width then Spaces(width - |w|) else "";
    assert PadLeft(w, width) + rest == pad + (w + rest);
    SkipSpaceAfter(pad, w + rest);
    ReadIntSkipSpace(pad + (w + rest), w + rest);
    ReadIntToString(i, rest);
  }

  /** Leading whitespace is skipped by every integer extraction. */
  lemma ReadIntSkipSpace(s: string, t: string)
    requires SkipSpace(s) == SkipSpace(t)
    ensures ReadInt(s) == ReadInt(t)
  {
  }

  lemma ReadIntsSkipSpace(s: string, t: string, k: nat)
    requires k > 0 && SkipSpace(s) == SkipSpace(t)
    ensures ReadInts(s, k) == ReadInts(t, k)
  {
    ReadIntSkipSpace(s, t);
  }

  // ---------------------------------------------------------------------
  // Searching

  /** Extending a slice by one element. */
  lemma SliceSnoc<T>(s: seq<T>, i: nat, j: nat)
    requires i <= j < |s|
    ensures s[i..j + 1] == s[i..j] + [s[j]]
  {
  }

  /** A slice that runs to the end is the suffix. */
  lemma SliceToEnd<T>(s: seq<T>, i: nat)
    requires i <= |s|
    ensures s[i..|s|] == s[i..]
  {
  }

  /** `std::find`: the position of the first `x` in `xs`, or `|xs|`. */
  function IndexOf<T(==)>(xs: seq<T>, x: T): (r: nat)
    ensures r <= |xs|
    ensures r < |xs| ==> xs[r] == x
    ensures forall k :: 0 <= k < r ==> xs[k] != x
    ensures r == |xs| <==> x !in xs
  {
    if xs == [] then 0
    else if xs[0] == x then 0
    else 1 + IndexOf(xs[1..], x)
  }

  /** Appending never moves the first occurrence of an element already
      present; an element not present is first found in the appended part. */
  lemma IndexOfAppend<T>(xs: seq<T>, ys: seq<T>, x: T)
    ensures x in xs ==> IndexOf(xs + ys, x) == IndexOf(xs, x)
    ensures x !in xs ==> IndexOf(xs + ys, x) == |xs| + IndexOf(ys, x)
  {
    var r := IndexOf(xs + ys, x);
    if x in xs {
      var r0 := IndexOf(xs, x);
      assert (xs + ys)[r0] == x;
      assert r < |xs| ==> (xs + ys)[r] == xs[r];
    } else {
      var r1 := IndexOf(ys, x);
      assert forall k :: 0 <= k < |xs| ==> (xs + ys)[k] == xs[k];
      assert r1 < |ys| ==> (xs + ys)[|xs| + r1] == x;
      assert forall k :: 0 <= k < r1 ==> (xs + ys)[|xs| + k] == ys[k];
    }
  }
}
