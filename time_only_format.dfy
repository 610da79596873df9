/** `TimeOnly#strftime` and the private helpers it uses (`twelve_hour`,
    `zero_pad`, `blank_pad`), with `to_s`, which is `strftime('%T')`.

    Formatting is two rewrites of the format string. Phase 1 replaces every
    combination directive `%r`, `%R`, `%T`, `%X` by the primitive directives
    it stands for. Phase 2 scans the result once, left to right, and replaces
    every token `%`, optional `-`, conversion letter by its value. Both
    rewrites take their matches left to right without overlap and never look
    again at text they produced. The functions ExpandCombinations and
    Substitute state the two rewrites; the methods ExpandPass, SubstitutePass
    and Strftime compute them with loops over the characters. */
module TimeOnlyFormat {
  import opened Decimal
  import opened Clock
  import opened TimeOnly

  // ---------------------------------------------------------------------
  // Private helpers of the class

  /** `twelve_hour`: hours past noon lose 12; hours 0 through 12 are kept, so
      midnight stays 0 rather than becoming 12. */
  function TwelveHour(t: Time): (h: nat)
    ensures h <= 12
    ensures Hour(t) > 12 ==> h == Hour(t) - 12
    ensures Hour(t) <= 12 ==> h == Hour(t)
    ensures h == 0 <==> Hour(t) == 0
  {
    if Hour(t) > 12 then Hour(t) % 12 else Hour(t)
  }

  /** `zero_pad`: a leading `0` before a one-digit number; larger numbers are
      `to_s` of themselves. Below 100 it is the two-digit form. */
  function ZeroPad(n: nat): (r: string)
    ensures n < 100 ==> r == TwoDigits(n)
  {
    if n < 10 then "0" + NatToString(n)
    else
      assert NatToString(n) == NatToString(n / 10) + [DigitChar(n % 10)];
      NatToString(n)
  }

  /** `blank_pad`: a leading space before a one-digit number; from 10 to 99
      it is the two-digit form. */
  function BlankPad(n: nat): (r: string)
    ensures n < 10 ==> r == [' ', DigitChar(n)]
    ensures 10 <= n < 100 ==> r == TwoDigits(n)
  {
    if n < 10 then " " + NatToString(n)
    else
      assert NatToString(n) == NatToString(n / 10) + [DigitChar(n % 10)];
      NatToString(n)
  }

  // ---------------------------------------------------------------------
  // Phase 1: combination directives

  /** The letters that, after `%`, the first substitution replaces. */
  predicate IsCombination(c: char) {
    c in "rRTX"
  }

  /** The block of the first substitution: what a combination token becomes. */
  function Expansion(c: char): string {
    match c
    case 'r' => "%I:%M:%S %p"
    case 'R' => "%H:%M"
    case 'T' | 'X' => "%H:%M:%S"
    case _ => ""
  }

  /** Phase 1: every `%` followed by a combination letter is replaced by its
      expansion, every other character is copied; scanning resumes after the
      replaced token. */
  function ExpandCombinations(f: string): string
    decreases |f|
  {
    if f == [] then []
    else if |f| >= 2 && f[0] == '%' && IsCombination(f[1]) then
      Expansion(f[1]) + ExpandCombinations(f[2..])
    else
      [f[0]] + ExpandCombinations(f[1..])
  }

  // ---------------------------------------------------------------------
  // Phase 2: primitive directives

  /** The conversion letters of the second substitution's pattern. */
  predicate IsConversion(c: char) {
    c in "HkIlPpMSnt%"
  }

  /** Which of the characters the formats below use belong to which class. */
  lemma ConversionLetters()
    ensures IsConversion('H') && IsConversion('k') && IsConversion('I') && IsConversion('l')
    ensures IsConversion('P') && IsConversion('p') && IsConversion('M') && IsConversion('S')
    ensures IsConversion('n') && IsConversion('t') && IsConversion('%')
  {
    var conversions := "HkIlPpMSnt%";
    assert conversions[0] == 'H' && conversions[1] == 'k' && conversions[2] == 'I';
    assert conversions[3] == 'l' && conversions[4] == 'P' && conversions[5] == 'p';
    assert conversions[6] == 'M' && conversions[7] == 'S' && conversions[8] == 'n';
    assert conversions[9] == 't' && conversions[10] == '%';
  }

  lemma OtherLetters()
    ensures !IsConversion(':') && !IsConversion(' ') && !IsConversion('-') && !IsConversion('.')
    ensures !IsCombination('H') && !IsCombination('M') && !IsCombination('S') && !IsCombination('%')
    ensures !IsCombination('-') && !IsCombination('I') && !IsCombination('p')
  {
  }

  lemma CombinationLetters()
    ensures IsCombination('r') && IsCombination('R') && IsCombination('T') && IsCombination('X')
  {
    var combinations := "rRTX";
    assert combinations[0] == 'r' && combinations[1] == 'R';
    assert combinations[2] == 'T' && combinations[3] == 'X';
  }

  /** What the block of the second substitution reads from the receiver:
      `hour`, `twelve_hour`, `min`, `sec` and `am?`. */
  datatype Readings = Readings(hour: nat, twelveHour: nat, min: nat, sec: nat, am: bool)

  function ReadingsOf(t: Time): (d: Readings)
    ensures d.hour < 24 && d.twelveHour <= 12 && d.min < 60 && d.sec < 60
  {
    Readings(Hour(t), TwelveHour(t), Min(t), Sec(t), IsAm(t))
  }

  /** The block of the second substitution: what a matched token, with or
      without the `-` flag, is replaced by. The numbers the block returns are
      rendered by `to_s`. Flagged tokens for which no branch exists (`%-P`,
      `%-p`, `%-n`, `%-t`, `%-%`) leave the block with nil, which the
      substitution renders as the empty string. */
  function Replacement(d: Readings, flagged: bool, c: char): string {
    if !flagged then
      match c
      case 'H' => ZeroPad(d.hour)
      case 'k' => BlankPad(d.hour)
      case 'I' => ZeroPad(d.twelveHour)
      case 'l' => BlankPad(d.twelveHour)
      case 'P' => if d.am then "am" else "pm"
      case 'p' => if d.am then "AM" else "PM"
      case 'M' => ZeroPad(d.min)
      case 'S' => ZeroPad(d.sec)
      case 'n' => "\n"
      case 't' => "\t"
      case '%' => "%"
      case _ => ""
    else
      match c
      case 'H' | 'k' => NatToString(d.hour)
      case 'I' | 'l' => NatToString(d.twelveHour)
      case 'M' => NatToString(d.min)
      case 'S' => NatToString(d.sec)
      case _ => ""
  }

  /** The length of the token the phase 2 pattern `%-?[HkIlPpMSnt%]` matches
      at the start of `f`: 3 with the `-` flag, 2 without, 0 when it does not
      match there. The optional flag is tried first. */
  function TokenLength(f: string): (n: nat)
    ensures n == 0 || n == 2 || n == 3
    ensures n <= |f|
  {
    if |f| >= 3 && f[0] == '%' && f[1] == '-' && IsConversion(f[2]) then 3
    else if |f| >= 2 && f[0] == '%' && IsConversion(f[1]) then 2
    else 0
  }

  /** Phase 2: a token matched at the current position is replaced and
      scanning resumes after it; anything else is copied one character at a
      time. */
  function Substitute(d: Readings, f: string): string
    decreases |f|
  {
    if f == [] then []
    else
      var n := TokenLength(f);
      if n == 0 then [f[0]] + Substitute(d, f[1..])
      else Replacement(d, n == 3, f[n - 1]) + Substitute(d, f[n..])
  }

  /** What `strftime(format)` returns: phase 2 applied to the result of phase 1. */
  function Format(t: Time, format: string): string {
    Substitute(ReadingsOf(t), ExpandCombinations(format))
  }

  /** `to_s`: `strftime('%T')`, the zero-padded `HH:MM:SS`. */
  function ToS(t: Time): (r: string)
    ensures r == TwoDigits(Hour(t)) + ":" + TwoDigits(Min(t)) + ":" + TwoDigits(Sec(t))
  {
    FormatClock24(t);
    Format(t, "%T")
  }

  // ---------------------------------------------------------------------
  // The imperative form of strftime

  /** Phase 1 as the source runs it: a scan over the duplicated format string
      that rewrites each combination token. */
  method ExpandPass(format: string) returns (expanded: string)
    ensures expanded == ExpandCombinations(format)
  {
    expanded := [];
    var i := 0;
    while i < |format|
      invariant 0 <= i <= |format|
      invariant expanded + ExpandCombinations(format[i..]) == ExpandCombinations(format)
    {
      ghost var rest := format[i..];
      if i + 1 < |format| && format[i] == '%' && IsCombination(format[i + 1]) {
        assert rest[2..] == format[i + 2..];
        expanded := expanded + Expansion(format[i + 1]);
        i := i + 2;
      } else {
        assert rest[1..] == format[i + 1..];
        expanded := expanded + [format[i]];
        i := i + 1;
      }
    }
  }

  /** Phase 2 as the source runs it: one left-to-right scan emitting copied
      characters and replacements into the output. */
  method SubstitutePass(t: Time, format: string) returns (r: string)
    ensures r == Substitute(ReadingsOf(t), format)
  {
    var d := ReadingsOf(t);
    r := [];
    var i := 0;
    while i < |format|
      invariant 0 <= i <= |format|
      invariant r + Substitute(d, format[i..]) == Substitute(d, format)
    {
      var n := TokenLength(format[i..]);
      SubstituteStep(d, format, i);
      if n == 0 {
        r := r + [format[i]];
        i := i + 1;
      } else {
        r := r + Replacement(d, n == 3, format[i + n - 1]);
        i := i + n;
      }
    }
  }

  /** One step of the scan at position `i`: a copied character or a replaced token. */
  lemma SubstituteStep(d: Readings, f: string, i: nat)
    requires i < |f|
    ensures var n := TokenLength(f[i..]);
      i + n <= |f| &&
      (n == 0 ==> Substitute(d, f[i..]) == [f[i]] + Substitute(d, f[i + 1..])) &&
      (n > 0 ==> Substitute(d, f[i..]) == Replacement(d, n == 3, f[i + n - 1]) + Substitute(d, f[i + n..]))
  {
    var n := TokenLength(f[i..]);
    if n == 0 {
      assert f[i..][1..] == f[i + 1..];
    } else {
      assert f[i..][n..] == f[i + n..];
      assert f[i..][n - 1] == f[i + n - 1];
    }
  }

  /** `strftime(format)`: the format is copied, rewritten by phase 1, and the
      rewritten copy is scanned by phase 2. */
  method Strftime(t: Time, format: string) returns (r: string)
    ensures r == Format(t, format)
  {
    var buffer := format;
    buffer := ExpandPass(buffer);
    r := SubstitutePass(t, buffer);
  }

  // ---------------------------------------------------------------------
  // Phase 1 properties

  /** Phase 1 never changes the first character: expansions begin with `%`. */
  lemma ExpandFirst(f: string)
    requires f != []
    ensures ExpandCombinations(f) != [] && ExpandCombinations(f)[0] == f[0]
  {
    if |f| >= 2 && f[0] == '%' && IsCombination(f[1]) {
      assert Expansion(f[1])[0] == '%';
    }
  }

  /** No `%` in the string is followed by a combination letter. */
  predicate NoCombination(s: string) {
    forall i | 0 <= i < |s| - 1 :: s[i] == '%' ==> !IsCombination(s[i + 1])
  }

  lemma NoCombinationAppend(a: string, b: string)
    requires NoCombination(a) && NoCombination(b)
    requires a == [] || b == [] || a[|a| - 1] != '%' || !IsCombination(b[0])
    ensures NoCombination(a + b)
  {
    var s := a + b;
    forall i | 0 <= i < |s| - 1 && s[i] == '%'
      ensures !IsCombination(s[i + 1])
    {
      if i + 1 < |a| {
        assert s[i] == a[i] && s[i + 1] == a[i + 1];
      } else if i + 1 == |a| {
        assert s[i] == a[|a| - 1] && s[i + 1] == b[0];
      } else {
        assert s[i] == b[i - |a|] && s[i + 1] == b[i - |a| + 1];
      }
    }
  }

  /** Phase 1 is complete: its output holds no combination directive, so
      none is left for phase 2. */
  lemma {:induction false} ExpandCompletes(f: string)
    ensures NoCombination(ExpandCombinations(f))
    decreases |f|
  {
    if f == [] {
    } else if |f| >= 2 && f[0] == '%' && IsCombination(f[1]) {
      ExpandCompletes(f[2..]);
      var e := Expansion(f[1]);
      assert e == "%I:%M:%S %p" || e == "%H:%M" || e == "%H:%M:%S";
      assert NoCombination(e) && e[|e| - 1] != '%';
      NoCombinationAppend(e, ExpandCombinations(f[2..]));
    } else {
      ExpandCompletes(f[1..]);
      if |f| >= 2 {
        ExpandFirst(f[1..]);
      }
      NoCombinationAppend([f[0]], ExpandCombinations(f[1..]));
    }
  }

  /** A string without combination directives passes phase 1 unchanged. */
  lemma {:induction false} ExpandIdentity(s: string)
    requires NoCombination(s)
    ensures ExpandCombinations(s) == s
    decreases |s|
  {
    if s != [] {
      var tail := s[1..];
      assert forall i | 0 <= i < |tail| :: tail[i] == s[i + 1];
      assert NoCombination(tail);
      ExpandIdentity(tail);
      assert s == [s[0]] + tail;
    }
  }

  /** Hence phase 1 is idempotent. */
  lemma ExpandIdempotent(f: string)
    ensures ExpandCombinations(ExpandCombinations(f)) == ExpandCombinations(f)
  {
    ExpandCompletes(f);
    ExpandIdentity(ExpandCombinations(f));
  }

  /** Phase 1 distributes over a concatenation whose left part does not end
      in a `%` that could pair with the right part. */
  lemma {:induction false} ExpandAppend(a: string, b: string)
    requires a == [] || a[|a| - 1] != '%'
    ensures ExpandCombinations(a + b) == ExpandCombinations(a) + ExpandCombinations(b)
    decreases |a|
  {
    if a == [] {
      assert a + b == b;
    } else if |a| >= 2 && a[0] == '%' && IsCombination(a[1]) {
      assert (a + b)[2..] == a[2..] + b;
      ExpandAppend(a[2..], b);
    } else {
      assert (a + b)[1..] == a[1..] + b;
      ExpandAppend(a[1..], b);
    }
  }

  // ---------------------------------------------------------------------
  // Phase 2 properties

  /** The string does not end inside a token phase 2 could match, that is in
      a `%` or a `%-`. */
  predicate EndsOutsideToken(s: string) {
    (|s| >= 1 ==> s[|s| - 1] != '%') && (|s| >= 2 ==> !(s[|s| - 2] == '%' && s[|s| - 1] == '-'))
  }

  /** A token found at the start of `a` is found in `a + b` too, and no
      other, when `a` does not end inside a token. */
  lemma TokenLengthAppend(a: string, b: string)
    requires a != [] && EndsOutsideToken(a)
    ensures TokenLength(a + b) == TokenLength(a)
  {
    var ab := a + b;
    assert ab[0] == a[0];
    if |a| >= 2 {
      assert ab[1] == a[1];
    }
    if |a| >= 3 {
      assert ab[2] == a[2];
    }
  }

  /** Phase 2 over a string that starts with a copied character. */
  lemma SubstituteCopied(d: Readings, f: string)
    requires f != [] && TokenLength(f) == 0
    ensures Substitute(d, f) == [f[0]] + Substitute(d, f[1..])
  {
  }

  /** Phase 2 over a string that starts with a token. */
  lemma SubstituteToken(d: Readings, f: string)
    requires f != [] && TokenLength(f) > 0
    ensures Substitute(d, f) ==
      Replacement(d, TokenLength(f) == 3, f[TokenLength(f) - 1]) + Substitute(d, f[TokenLength(f)..])
  {
  }

  lemma AppendAt(a: string, b: string, k: nat)
    requires 0 < k <= |a|
    ensures (a + b)[k - 1] == a[k - 1] && (a + b)[k..] == a[k..] + b
  {
  }

  lemma Associative(h: string, x: string, y: string)
    ensures h + (x + y) == (h + x) + y
  {
  }

  lemma SubstituteAppendCopy(d: Readings, a: string, b: string)
    requires a != [] && EndsOutsideToken(a) && TokenLength(a) == 0
    requires Substitute(d, a[1..] + b) == Substitute(d, a[1..]) + Substitute(d, b)
    ensures Substitute(d, a + b) == Substitute(d, a) + Substitute(d, b)
  {
    TokenLengthAppend(a, b);
    AppendAt(a, b, 1);
    SubstituteCopied(d, a);
    SubstituteCopied(d, a + b);
    Associative([a[0]], Substitute(d, a[1..]), Substitute(d, b));
  }

  lemma SubstituteAppendToken(d: Readings, a: string, b: string)
    requires a != [] && EndsOutsideToken(a) && TokenLength(a) > 0
    requires Substitute(d, a[TokenLength(a)..] + b) ==
      Substitute(d, a[TokenLength(a)..]) + Substitute(d, b)
    ensures Substitute(d, a + b) == Substitute(d, a) + Substitute(d, b)
  {
    var n := TokenLength(a);
    TokenLengthAppend(a, b);
    AppendAt(a, b, n);
    SubstituteToken(d, a);
    SubstituteToken(d, a + b);
    Associative(Replacement(d, n == 3, a[n - 1]), Substitute(d, a[n..]), Substitute(d, b));
  }

  /** Phase 2 distributes over a concatenation whose left part does not end
      inside a token: the scan's choices in one part never depend on the other. */
  lemma {:induction false} SubstituteAppend(d: Readings, a: string, b: string)
    requires EndsOutsideToken(a)
    ensures Substitute(d, a + b) == Substitute(d, a) + Substitute(d, b)
    decreases |a|
  {
    if a == [] {
      assert a + b == b;
    } else if TokenLength(a) == 0 {
      SubstituteAppend(d, a[1..], b);
      SubstituteAppendCopy(d, a, b);
    } else {
      SubstituteAppend(d, a[TokenLength(a)..], b);
      SubstituteAppendToken(d, a, b);
    }
  }

  /** Text without `%` is copied verbatim by phase 2. */
  lemma {:induction false} SubstituteLiteral(d: Readings, s: string)
    requires '%' !in s
    ensures Substitute(d, s) == s
    decreases |s|
  {
    if s != [] {
      assert s == [s[0]] + s[1..];
      SubstituteLiteral(d, s[1..]);
    }
  }

  /** The `%` that `%%` produces is never joined with what follows it: the
      text after `%%` is scanned on its own. */
  lemma SubstitutePercentNotRescanned(d: Readings, s: string)
    ensures Substitute(d, "%%" + s) == "%" + Substitute(d, s)
  {
    var f := "%%" + s;
    assert IsConversion('%') by { ConversionLetters(); }
    assert f[0] == '%' && f[1] == '%' && f[2..] == s;
    assert TokenLength(f) == 2;
  }

  lemma SubstituteDirective(d: Readings, c: char, rest: string)
    requires IsConversion(c)
    ensures Substitute(d, ['%', c] + rest) == Replacement(d, false, c) + Substitute(d, rest)
  {
    assert (['%', c] + rest)[2..] == rest;
  }

  lemma SubstituteFlagged(d: Readings, c: char, rest: string)
    requires IsConversion(c)
    ensures Substitute(d, ['%', '-', c] + rest) == Replacement(d, true, c) + Substitute(d, rest)
  {
    assert (['%', '-', c] + rest)[3..] == rest;
  }

  lemma SubstituteChar(d: Readings, c: char, rest: string)
    requires c != '%'
    ensures Substitute(d, [c] + rest) == [c] + Substitute(d, rest)
  {
    assert ([c] + rest)[1..] == rest;
  }

  // ---------------------------------------------------------------------
  // Formats built from pieces

  /** A format read as the second phase reads it: runs of text without `%`
      and directive tokens. */
  datatype Piece = Literal(text: string) | Directive(flagged: bool, letter: char)

  /** The format a list of pieces spells. */
  function Spell(ps: seq<Piece>): string {
    if ps == [] then []
    else
      (match ps[0]
       case Literal(text) => text
       case Directive(flagged, c) => if flagged then ['%', '-', c] else ['%', c])
      + Spell(ps[1..])
  }

  /** What phase 2 makes of the pieces: text is kept, each directive is
      replaced. */
  function Render(d: Readings, ps: seq<Piece>): string {
    if ps == [] then []
    else
      (match ps[0]
       case Literal(text) => text
       case Directive(flagged, c) => Replacement(d, flagged, c))
      + Render(d, ps[1..])
  }

  /** The pieces are what the scan finds: no text holds a `%`, and every
      directive letter is in the pattern. */
  predicate Parses(ps: seq<Piece>) {
    ps != [] ==>
      (match ps[0]
       case Literal(text) => '%' !in text
       case Directive(_, c) => IsConversion(c)) &&
      Parses(ps[1..])
  }

  /** One piece as the scan finds it. */
  predicate PieceParses(p: Piece) {
    match p
    case Literal(text) => '%' !in text
    case Directive(_, c) => IsConversion(c)
  }

  /** The pieces parse when each of them does. */
  lemma {:induction false} ParsesEach(ps: seq<Piece>)
    requires forall i | 0 <= i < |ps| :: PieceParses(ps[i])
    ensures Parses(ps)
    decreases |ps|
  {
    if ps != [] {
      assert PieceParses(ps[0]);
      assert forall i | 0 <= i < |ps[1..]| :: ps[1..][i] == ps[i + 1];
      ParsesEach(ps[1..]);
    }
  }

  /** No directive is `%%`: the only piece whose spelling ends in a `%` that
      phase 1 could pair with the next piece. */
  predicate NoPercentDirective(ps: seq<Piece>) {
    forall i | 0 <= i < |ps| :: ps[i].Directive? ==> ps[i].letter != '%'
  }

  /** Phase 2 works piece by piece on a format that parses. */
  lemma {:induction false} SubstituteSpell(d: Readings, ps: seq<Piece>)
    requires Parses(ps)
    ensures Substitute(d, Spell(ps)) == Render(d, ps)
  {
    if ps != [] {
      var rest := Spell(ps[1..]);
      SubstituteSpell(d, ps[1..]);
      match ps[0]
      case Literal(text) =>
        if text != [] {
          assert text[|text| - 1] != '%';
        }
        SubstituteAppend(d, text, rest);
        SubstituteLiteral(d, text);
      case Directive(flagged, c) =>
        if flagged {
          SubstituteFlagged(d, c, rest);
        } else {
          SubstituteDirective(d, c, rest);
        }
    }
  }

  /** Phase 1 leaves such a format as it is. */
  lemma {:induction false} SpellNoCombination(ps: seq<Piece>)
    requires Parses(ps) && NoPercentDirective(ps)
    ensures NoCombination(Spell(ps))
  {
    if ps != [] {
      var first := match ps[0]
        case Literal(text) => text
        case Directive(flagged, c) => if flagged then ['%', '-', c] else ['%', c];
      assert Spell(ps) == first + Spell(ps[1..]);
      assert NoPercentDirective(ps[1..]) by {
        forall i | 0 <= i < |ps[1..]| && ps[1..][i].Directive?
          ensures ps[1..][i].letter != '%'
        {
          assert ps[1..][i] == ps[i + 1];
        }
      }
      SpellNoCombination(ps[1..]);
      assert !IsCombination('-') by { OtherLetters(); }
      match ps[0] {
        case Literal(text) =>
          assert first == [] || first[|first| - 1] != '%';
        case Directive(_, c) =>
          assert ps[0].letter != '%';
          ConversionNotCombination(c);
      }
      assert NoCombination(first);
      NoCombinationAppend(first, Spell(ps[1..]));
    }
  }

  /** Hence `strftime` of such a format renders it piece by piece. */
  lemma FormatSpell(t: Time, ps: seq<Piece>)
    requires Parses(ps) && NoPercentDirective(ps)
    ensures Format(t, Spell(ps)) == Render(ReadingsOf(t), ps)
  {
    SpellNoCombination(ps);
    ExpandIdentity(Spell(ps));
    SubstituteSpell(ReadingsOf(t), ps);
  }

  // ---------------------------------------------------------------------
  // strftime, end to end

  /** Text without `%` comes out of `strftime` exactly as it went in. */
  lemma FormatLiteral(t: Time, s: string)
    requires '%' !in s
    ensures Format(t, s) == s
  {
    assert NoCombination(s);
    ExpandIdentity(s);
    SubstituteLiteral(ReadingsOf(t), s);
  }

  lemma ConversionNotCombination(c: char)
    requires IsConversion(c)
    ensures !IsCombination(c)
  {
  }

  /** A primitive directive, flagged or not, through both phases. */
  lemma FormatDirective(t: Time, c: char)
    requires IsConversion(c)
    ensures Format(t, ['%', c]) == Replacement(ReadingsOf(t), false, c)
    ensures Format(t, ['%', '-', c]) == Replacement(ReadingsOf(t), true, c)
  {
    ConversionNotCombination(c);
    assert !IsCombination('-') by { OtherLetters(); }
    assert NoCombination(['%', c]);
    ExpandIdentity(['%', c]);
    assert NoCombination(['%', '-', c]);
    ExpandIdentity(['%', '-', c]);
    SubstituteDirective(ReadingsOf(t), c, []);
    SubstituteFlagged(ReadingsOf(t), c, []);
    assert ['%', c] + [] == ['%', c];
    assert ['%', '-', c] + [] == ['%', '-', c];
  }

  /** The block's value for each letter, in terms of the accessors. */
  lemma ReplacementValues(t: Time)
    ensures Replacement(ReadingsOf(t), false, 'H') == TwoDigits(Hour(t))
    ensures Replacement(ReadingsOf(t), false, 'k') ==
      if Hour(t) < 10 then [' ', DigitChar(Hour(t))] else TwoDigits(Hour(t))
    ensures Replacement(ReadingsOf(t), true, 'H') == NatToString(Hour(t))
    ensures Replacement(ReadingsOf(t), true, 'k') == NatToString(Hour(t))
    ensures Replacement(ReadingsOf(t), false, 'I') == TwoDigits(TwelveHour(t))
    ensures Replacement(ReadingsOf(t), false, 'l') ==
      if TwelveHour(t) < 10 then [' ', DigitChar(TwelveHour(t))] else TwoDigits(TwelveHour(t))
    ensures Replacement(ReadingsOf(t), true, 'I') == NatToString(TwelveHour(t))
    ensures Replacement(ReadingsOf(t), true, 'l') == NatToString(TwelveHour(t))
    ensures Replacement(ReadingsOf(t), false, 'M') == TwoDigits(Min(t))
    ensures Replacement(ReadingsOf(t), true, 'M') == NatToString(Min(t))
    ensures Replacement(ReadingsOf(t), false, 'S') == TwoDigits(Sec(t))
    ensures Replacement(ReadingsOf(t), true, 'S') == NatToString(Sec(t))
    ensures Replacement(ReadingsOf(t), false, 'P') == if Hour(t) < 12 then "am" else "pm"
    ensures Replacement(ReadingsOf(t), false, 'p') == if Hour(t) < 12 then "AM" else "PM"
    ensures Replacement(ReadingsOf(t), false, 'n') == "\n"
    ensures Replacement(ReadingsOf(t), false, 't') == "\t"
    ensures Replacement(ReadingsOf(t), false, '%') == "%"
  {
  }

  /** The directive table, 24-hour hour: `%H` zero-padded, `%k` blank-padded,
      `%-H` and `%-k` unpadded. */
  lemma FormatHour(t: Time)
    ensures Format(t, "%H") == TwoDigits(Hour(t))
    ensures Format(t, "%k") == if Hour(t) < 10 then [' ', DigitChar(Hour(t))] else TwoDigits(Hour(t))
    ensures Format(t, "%-H") == NatToString(Hour(t)) && Format(t, "%-k") == NatToString(Hour(t))
  {
    ReplacementValues(t);
    assert IsConversion('H') && IsConversion('k') by { ConversionLetters(); }
    FormatDirective(t, 'H');
    FormatDirective(t, 'k');
  }

  /** The directive table, 12-hour hour: `%I` zero-padded, `%l`
      blank-padded, `%-I` and `%-l` unpadded. */
  lemma FormatTwelveHour(t: Time)
    ensures Format(t, "%I") == TwoDigits(TwelveHour(t))
    ensures Format(t, "%l") ==
      if TwelveHour(t) < 10 then [' ', DigitChar(TwelveHour(t))] else TwoDigits(TwelveHour(t))
    ensures Format(t, "%-I") == NatToString(TwelveHour(t)) && Format(t, "%-l") == NatToString(TwelveHour(t))
  {
    ReplacementValues(t);
    assert IsConversion('I') && IsConversion('l') by { ConversionLetters(); }
    FormatDirective(t, 'I');
    FormatDirective(t, 'l');
  }

  /** The directive table, meridian: `%P` is `am` and `%p` is `AM` exactly
      before noon, `pm` and `PM` from noon on. */
  lemma FormatMeridian(t: Time)
    ensures Format(t, "%P") == if Hour(t) < 12 then "am" else "pm"
    ensures Format(t, "%p") == if Hour(t) < 12 then "AM" else "PM"
  {
    ReplacementValues(t);
    assert IsConversion('P') && IsConversion('p') by { ConversionLetters(); }
    FormatDirective(t, 'P');
    FormatDirective(t, 'p');
  }

  /** The directive table, minute and second: zero-padded, or unpadded under
      the flag. */
  lemma FormatMinSec(t: Time)
    ensures Format(t, "%M") == TwoDigits(Min(t)) && Format(t, "%-M") == NatToString(Min(t))
    ensures Format(t, "%S") == TwoDigits(Sec(t)) && Format(t, "%-S") == NatToString(Sec(t))
  {
    ReplacementValues(t);
    assert IsConversion('M') && IsConversion('S') by { ConversionLetters(); }
    FormatDirective(t, 'M');
    FormatDirective(t, 'S');
  }

  /** The directive table, literals: newline, tab and percent. */
  lemma FormatLiterals(t: Time)
    ensures Format(t, "%n") == "\n" && Format(t, "%t") == "\t" && Format(t, "%%") == "%"
  {
    assert IsConversion('n') && IsConversion('t') && IsConversion('%') by { ConversionLetters(); }
    ReplacementValues(t);
    FormatDirective(t, 'n');
    FormatDirective(t, 't');
    FormatDirective(t, '%');
  }

  /** The padded directives always give two characters. */
  lemma PaddedWidth(t: Time)
    ensures |Format(t, "%H")| == 2 && |Format(t, "%k")| == 2
    ensures |Format(t, "%I")| == 2 && |Format(t, "%l")| == 2
    ensures |Format(t, "%M")| == 2 && |Format(t, "%S")| == 2
  {
    FormatHour(t);
    FormatTwelveHour(t);
    FormatMinSec(t);
  }

  /** The flagged tokens that no branch handles render as nothing. */
  lemma FlaggedNil(d: Readings, c: char)
    requires c in "Ppnt%"
    ensures Replacement(d, true, c) == ""
  {
  }

  lemma FlaggedWithoutBranch(t: Time, c: char)
    requires c in "Ppnt%"
    ensures Format(t, ['%', '-', c]) == ""
  {
    assert IsConversion(c) by { ConversionLetters(); }
    FlaggedNil(ReadingsOf(t), c);
    FormatDirective(t, c);
  }

  /** A `%` before a character neither phase knows, with or without the `-`
      flag, is copied verbatim. */
  lemma UnmatchedPassThrough(t: Time, c: char)
    requires !IsConversion(c) && !IsCombination(c)
    ensures Format(t, ['%', c]) == ['%', c]
    ensures Format(t, ['%', '-', c]) == ['%', '-', c]
  {
    assert IsConversion('%') by { ConversionLetters(); }
    assert !IsConversion('-') && !IsCombination('-') by { OtherLetters(); }
    var d := ReadingsOf(t);
    assert NoCombination(['%', c]);
    ExpandIdentity(['%', c]);
    assert NoCombination(['%', '-', c]);
    ExpandIdentity(['%', '-', c]);
    SubstituteLiteral(d, [c]);
    assert TokenLength(['%', c]) == 0;
    assert ['%', c][1..] == [c];
    SubstituteLiteral(d, ['-', c]);
    assert TokenLength(['%', '-', c]) == 0;
    assert ['%', '-', c][1..] == ['-', c];
  }

  /** Phase 1 on each combination directive alone. */
  lemma ExpandEachCombination()
    ensures ExpandCombinations("%r") == "%I:%M:%S %p"
    ensures ExpandCombinations("%R") == "%H:%M"
    ensures ExpandCombinations("%T") == "%H:%M:%S"
    ensures ExpandCombinations("%X") == "%H:%M:%S"
  {
    CombinationLetters();
    assert "%r"[2..] == [] && "%R"[2..] == [] && "%T"[2..] == [] && "%X"[2..] == [];
  }

  /** The expansion of `%T` and `%X` as pieces. */
  const CLOCK_24: seq<Piece> :=
    [Directive(false, 'H'), Literal(":"), Directive(false, 'M'), Literal(":"), Directive(false, 'S')]

  lemma Clock24Spelled()
    ensures Spell(CLOCK_24) == "%H:%M:%S"
    ensures Parses(CLOCK_24) && NoPercentDirective(CLOCK_24)
  {
    var ps := CLOCK_24;
    assert IsConversion('H') && IsConversion('M') && IsConversion('S') by { ConversionLetters(); }
    assert ps[4..][1..] == [];
    assert ps[3..][1..] == ps[4..];
    assert ps[2..][1..] == ps[3..];
    assert ps[1..][1..] == ps[2..];
    assert Spell(ps[4..]) == "%S" + [];
    assert Spell(ps[3..]) == ":" + Spell(ps[4..]);
    assert Spell(ps[2..]) == "%M" + Spell(ps[3..]);
    assert Spell(ps[1..]) == ":" + Spell(ps[2..]);
    assert Parses(ps[4..]) && Parses(ps[3..]) && Parses(ps[2..]) && Parses(ps[1..]);
  }

  lemma Clock24Rendered(d: Readings)
    requires d.hour < 24 && d.min < 60 && d.sec < 60
    ensures Render(d, CLOCK_24) ==
      TwoDigits(d.hour) + (":" + (TwoDigits(d.min) + (":" + (TwoDigits(d.sec) + []))))
  {
    var ps := CLOCK_24;
    assert ps[4..][1..] == [];
    assert ps[3..][1..] == ps[4..];
    assert ps[2..][1..] == ps[3..];
    assert ps[1..][1..] == ps[2..];
    assert Render(d, ps[4..]) == ZeroPad(d.sec) + [];
    assert Render(d, ps[3..]) == ":" + Render(d, ps[4..]);
    assert Render(d, ps[2..]) == ZeroPad(d.min) + Render(d, ps[3..]);
    assert Render(d, ps[1..]) == ":" + Render(d, ps[2..]);
  }

  /** The expansion of `%R` as pieces. */
  const CLOCK_24_SHORT: seq<Piece> := [Directive(false, 'H'), Literal(":"), Directive(false, 'M')]

  lemma Clock24ShortSpelled()
    ensures Spell(CLOCK_24_SHORT) == "%H:%M"
    ensures Parses(CLOCK_24_SHORT) && NoPercentDirective(CLOCK_24_SHORT)
  {
    var ps := CLOCK_24_SHORT;
    assert IsConversion('H') && IsConversion('M') by { ConversionLetters(); }
    assert ps[2..][1..] == [];
    assert ps[1..][1..] == ps[2..];
    assert Spell(ps[2..]) == "%M" + [];
    assert Spell(ps[1..]) == ":" + Spell(ps[2..]);
    assert Parses(ps[2..]) && Parses(ps[1..]);
  }

  lemma Clock24ShortRendered(d: Readings)
    requires d.hour < 24 && d.min < 60
    ensures Render(d, CLOCK_24_SHORT) == TwoDigits(d.hour) + (":" + (TwoDigits(d.min) + []))
  {
    var ps := CLOCK_24_SHORT;
    assert ps[2..][1..] == [];
    assert ps[1..][1..] == ps[2..];
    assert Render(d, ps[2..]) == ZeroPad(d.min) + [];
    assert Render(d, ps[1..]) == ":" + Render(d, ps[2..]);
  }

  /** The expansion of `%r` as pieces. */
  const CLOCK_12: seq<Piece> :=
    [Directive(false, 'I'), Literal(":"), Directive(false, 'M'), Literal(":"), Directive(false, 'S'),
     Literal(" "), Directive(false, 'p')]

  lemma Clock12Spelled()
    ensures Spell(CLOCK_12) == "%I:%M:%S %p"
    ensures Parses(CLOCK_12) && NoPercentDirective(CLOCK_12)
  {
    var ps := CLOCK_12;
    assert ps[6..][1..] == [];
    assert ps[5..][1..] == ps[6..];
    assert ps[4..][1..] == ps[5..];
    assert ps[3..][1..] == ps[4..];
    assert ps[2..][1..] == ps[3..];
    assert ps[1..][1..] == ps[2..];
    assert Spell(ps[6..]) == "%p" + [];
    assert Spell(ps[5..]) == " " + Spell(ps[6..]);
    assert Spell(ps[4..]) == "%S" + Spell(ps[5..]);
    assert Spell(ps[3..]) == ":" + Spell(ps[4..]);
    assert Spell(ps[2..]) == "%M" + Spell(ps[3..]);
    assert Spell(ps[1..]) == ":" + Spell(ps[2..]);
    Clock12Parses();
  }

  lemma Clock12Parses()
    ensures Parses(CLOCK_12)
  {
    assert forall i | 0 <= i < |CLOCK_12| :: PieceParses(CLOCK_12[i]) by {
      Clock12Directives();
      var ps := CLOCK_12;
      assert PieceParses(ps[1]) && PieceParses(ps[3]) && PieceParses(ps[5]);
    }
    ParsesEach(CLOCK_12);
  }

  lemma Clock12Directives()
    ensures PieceParses(CLOCK_12[0]) && PieceParses(CLOCK_12[2])
    ensures PieceParses(CLOCK_12[4]) && PieceParses(CLOCK_12[6])
  {
    ConversionLetters();
  }

  lemma Clock12Rendered(d: Readings)
    requires d.twelveHour <= 12 && d.min < 60 && d.sec < 60
    ensures Render(d, CLOCK_12) ==
      TwoDigits(d.twelveHour) + (":" + (TwoDigits(d.min) + (":" + (TwoDigits(d.sec) + (" " +
      ((if d.am then "AM" else "PM") + []))))))
  {
    var ps := CLOCK_12;
    assert ps[6..][1..] == [];
    assert ps[5..][1..] == ps[6..];
    assert ps[4..][1..] == ps[5..];
    assert ps[3..][1..] == ps[4..];
    assert ps[2..][1..] == ps[3..];
    assert ps[1..][1..] == ps[2..];
    assert Render(d, ps[6..]) == (if d.am then "AM" else "PM") + [];
    assert Render(d, ps[5..]) == " " + Render(d, ps[6..]);
    assert Render(d, ps[4..]) == ZeroPad(d.sec) + Render(d, ps[5..]);
    assert Render(d, ps[3..]) == ":" + Render(d, ps[4..]);
    assert Render(d, ps[2..]) == ZeroPad(d.min) + Render(d, ps[3..]);
    assert Render(d, ps[1..]) == ":" + Render(d, ps[2..]);
  }

  /** Phase 1 hands each combination directive's expansion to phase 2. */
  lemma FormatExpands(t: Time)
    ensures Format(t, "%r") == Substitute(ReadingsOf(t), "%I:%M:%S %p")
    ensures Format(t, "%R") == Substitute(ReadingsOf(t), "%H:%M")
    ensures Format(t, "%T") == Substitute(ReadingsOf(t), "%H:%M:%S")
    ensures Format(t, "%X") == Substitute(ReadingsOf(t), "%H:%M:%S")
  {
    ExpandEachCombination();
  }

  /** Phase 2 on the expansions, for any readings in range. */
  lemma SubstituteClock24(d: Readings)
    requires d.hour < 24 && d.min < 60 && d.sec < 60
    ensures Substitute(d, "%H:%M:%S") ==
      TwoDigits(d.hour) + (":" + (TwoDigits(d.min) + (":" + (TwoDigits(d.sec) + []))))
  {
    Clock24Spelled();
    Clock24Rendered(d);
    SubstituteSpell(d, CLOCK_24);
  }

  lemma SubstituteClock24Short(d: Readings)
    requires d.hour < 24 && d.min < 60
    ensures Substitute(d, "%H:%M") == TwoDigits(d.hour) + (":" + (TwoDigits(d.min) + []))
  {
    Clock24ShortSpelled();
    Clock24ShortRendered(d);
    SubstituteSpell(d, CLOCK_24_SHORT);
  }

  lemma SubstituteClock12(d: Readings)
    requires d.twelveHour <= 12 && d.min < 60 && d.sec < 60
    ensures Substitute(d, "%I:%M:%S %p") ==
      TwoDigits(d.twelveHour) + (":" + (TwoDigits(d.min) + (":" + (TwoDigits(d.sec) +
      (" " + ((if d.am then "AM" else "PM") + []))))))
  {
    Clock12Spelled();
    Clock12Rendered(d);
    SubstituteSpell(d, CLOCK_12);
  }

  /** Regrouping a concatenation to the right, the form the rendering lemmas use. */
  lemma Regroup3(a: string, b: string, c: string)
    ensures a + b + c == a + (b + (c + []))
  {
  }

  lemma Regroup5(a: string, b: string, c: string, d: string, e: string)
    ensures a + b + c + d + e == a + (b + (c + (d + (e + []))))
  {
  }

  lemma Regroup7(a: string, b: string, c: string, d: string, e: string, f: string, g: string)
    ensures a + b + c + d + e + f + g == a + (b + (c + (d + (e + (f + (g + []))))))
  {
  }

  /** `%T` and `%X` through both phases: hours, minutes and seconds. */
  lemma FormatClock24(t: Time)
    ensures Format(t, "%T") == TwoDigits(Hour(t)) + ":" + TwoDigits(Min(t)) + ":" + TwoDigits(Sec(t))
    ensures Format(t, "%X") == Format(t, "%T")
  {
    FormatExpands(t);
    SubstituteClock24(ReadingsOf(t));
    Regroup5(TwoDigits(Hour(t)), ":", TwoDigits(Min(t)), ":", TwoDigits(Sec(t)));
  }

  /** `%R` through both phases: hours and minutes. */
  lemma FormatClock24Short(t: Time)
    ensures Format(t, "%R") == TwoDigits(Hour(t)) + ":" + TwoDigits(Min(t))
  {
    FormatExpands(t);
    SubstituteClock24Short(ReadingsOf(t));
    Regroup3(TwoDigits(Hour(t)), ":", TwoDigits(Min(t)));
  }

  /** `%r` through both phases: the 12-hour clock with the uppercase meridian. */
  lemma FormatClock12(t: Time)
    ensures Format(t, "%r") ==
      TwoDigits(TwelveHour(t)) + ":" + TwoDigits(Min(t)) + ":" + TwoDigits(Sec(t)) + " " +
      (if Hour(t) < 12 then "AM" else "PM")
  {
    FormatExpands(t);
    SubstituteClock12(ReadingsOf(t));
    Regroup7(TwoDigits(TwelveHour(t)), ":", TwoDigits(Min(t)), ":", TwoDigits(Sec(t)), " ",
      if Hour(t) < 12 then "AM" else "PM");
  }

  /** `to_s` is eight characters, `HH:MM:SS`, from which the time can be
      read back: distinct times print differently. */
  lemma ToSShape(t: Time)
    ensures |ToS(t)| == 8 && ToS(t)[2] == ':' && ToS(t)[5] == ':'
    ensures AllDigits(ToS(t)[0..2]) && DecimalValue(ToS(t)[0..2]) == Hour(t)
    ensures AllDigits(ToS(t)[3..5]) && DecimalValue(ToS(t)[3..5]) == Min(t)
    ensures AllDigits(ToS(t)[6..8]) && DecimalValue(ToS(t)[6..8]) == Sec(t)
  {
    ColonFields(Hour(t), Min(t), Sec(t));
    TwoDigitsValue(Hour(t));
    TwoDigitsValue(Min(t));
    TwoDigitsValue(Sec(t));
  }

  lemma ToSInjective(t: Time, u: Time)
    requires ToS(t) == ToS(u)
    ensures t == u
  {
    ToSShape(t);
    ToSShape(u);
    Recombine(t.secondsSinceMidnight);
    Recombine(u.secondsSinceMidnight);
  }

  // ---------------------------------------------------------------------
  // Quirks of the source, stated as they are

  /** Midnight in 12-hour form is hour 0, so `%I` is `00` and `%l` is ` 0`,
      although the directive table announces 01..12. */
  lemma MidnightTwelveHour(t: Time)
    requires Hour(t) == 0
    ensures Format(t, "%I") == "00" && Format(t, "%l") == " 0" && Format(t, "%-I") == "0"
  {
    FormatTwelveHour(t);
  }

  /** Phase 1 does not take `%%` as an escape: in `%%T` the second `%` and
      the `T` are still a combination directive. */
  lemma ExpandAfterPercent()
    ensures ExpandCombinations("%%T") == "%%H:%M:%S"
  {
    assert !IsCombination('%') by { OtherLetters(); }
    ExpandEachCombination();
    assert "%%T"[1..] == "%T";
  }

  /** `%%H:%M:%S` as pieces: the `%%` token, then text, since the `%` it
      produces is not scanned again. */
  const PERCENT_THEN_TEXT: seq<Piece> :=
    [Directive(false, '%'), Literal("H:"), Directive(false, 'M'), Literal(":"), Directive(false, 'S')]

  lemma PercentThenTextSpelled()
    ensures Spell(PERCENT_THEN_TEXT) == "%%H:%M:%S" && Parses(PERCENT_THEN_TEXT)
  {
    var ps := PERCENT_THEN_TEXT;
    assert IsConversion('%') && IsConversion('M') && IsConversion('S') by { ConversionLetters(); }
    assert ps[4..][1..] == [];
    assert ps[3..][1..] == ps[4..];
    assert ps[2..][1..] == ps[3..];
    assert ps[1..][1..] == ps[2..];
    assert Spell(ps[4..]) == "%S" + [];
    assert Spell(ps[3..]) == ":" + Spell(ps[4..]);
    assert Spell(ps[2..]) == "%M" + Spell(ps[3..]);
    assert Spell(ps[1..]) == "H:" + Spell(ps[2..]);
    assert '%' !in "H:" && '%' !in ":";
    assert Parses(ps[4..]) && Parses(ps[3..]) && Parses(ps[2..]) && Parses(ps[1..]);
  }

  lemma PercentThenTextRendered(d: Readings)
    requires d.min < 60 && d.sec < 60
    ensures Render(d, PERCENT_THEN_TEXT) ==
      "%" + ("H:" + (TwoDigits(d.min) + (":" + (TwoDigits(d.sec) + []))))
  {
    var ps := PERCENT_THEN_TEXT;
    assert ps[4..][1..] == [];
    assert ps[3..][1..] == ps[4..];
    assert ps[2..][1..] == ps[3..];
    assert ps[1..][1..] == ps[2..];
    assert Render(d, ps[4..]) == ZeroPad(d.sec) + [];
    assert Render(d, ps[3..]) == ":" + Render(d, ps[4..]);
    assert Render(d, ps[2..]) == ZeroPad(d.min) + Render(d, ps[3..]);
    assert Render(d, ps[1..]) == "H:" + Render(d, ps[2..]);
  }

  lemma SubstitutePercentThenText(d: Readings)
    requires d.min < 60 && d.sec < 60
    ensures Substitute(d, "%%H:%M:%S") == "%" + ("H:" + (TwoDigits(d.min) + (":" + (TwoDigits(d.sec) + []))))
  {
    PercentThenTextSpelled();
    PercentThenTextRendered(d);
    SubstituteSpell(d, PERCENT_THEN_TEXT);
  }

  /** Neither phase rescans what it produced: `strftime('%%T')` is the text
      `%H:` followed by the minutes and seconds. */
  lemma NoRescan(t: Time)
    ensures Format(t, "%%T") == "%H:" + TwoDigits(Min(t)) + ":" + TwoDigits(Sec(t))
  {
    ExpandAfterPercent();
    SubstitutePercentThenText(ReadingsOf(t));
    Regroup5("%", "H:", TwoDigits(Min(t)), ":", TwoDigits(Sec(t)));
    assert "%" + "H:" == "%H:";
  }

  /** The readings at 12:34:56, 01:00:12, 01:03:56, 13:00:00 and 08:00:00. */
  lemma ExampleReadings(t: Time)
    ensures ToI(t) == 45296 ==> ReadingsOf(t) == Readings(12, 12, 34, 56, false)
    ensures ToI(t) == 3612 ==> ReadingsOf(t) == Readings(1, 1, 0, 12, true)
    ensures ToI(t) == 3836 ==> ReadingsOf(t) == Readings(1, 1, 3, 56, true)
    ensures ToI(t) == 46800 ==> ReadingsOf(t) == Readings(13, 1, 0, 0, false)
    ensures ToI(t) == 28800 ==> ReadingsOf(t) == Readings(8, 8, 0, 0, true)
    ensures ToI(t) == 7 ==> ReadingsOf(t) == Readings(0, 0, 0, 7, true)
    ensures ToI(t) == 86397 ==> ReadingsOf(t) == Readings(23, 11, 59, 57, false)
  {
  }

  /** The two-digit forms the examples print. */
  lemma ExampleDigits()
    ensures TwoDigits(1) == "01" && TwoDigits(3) == "03"
    ensures TwoDigits(7) == "07" && TwoDigits(12) == "12" && TwoDigits(23) == "23"
    ensures TwoDigits(34) == "34" && TwoDigits(56) == "56" && TwoDigits(57) == "57"
    ensures TwoDigits(59) == "59" && TwoDigits(0) == "00" && NatToString(1) == "1"
  {
    DigitChars();
  }

  /** `strftime('%r')` at 12:34:56 is `12:34:56 PM`, at 01:00:12 `01:00:12 AM`. */
  lemma ExampleTwelveHourClock(t: Time, u: Time)
    requires ToI(t) == 45296 && ToI(u) == 3612
    ensures Format(t, "%r") == "12:34:56 PM"
    ensures Format(u, "%r") == "01:00:12 AM"
  {
    var d, e := ReadingsOf(t), ReadingsOf(u);
    assert d == Readings(12, 12, 34, 56, false) && e == Readings(1, 1, 0, 12, true) by {
      ExampleReadings(t);
      ExampleReadings(u);
    }
    TwelveHourClockOf(t, d);
    TwelveHourClockOf(u, e);
    TwelveHourClockTexts();
  }

  /** `%r` at given readings, with the concatenation grouped to the right. */
  lemma TwelveHourClockOf(t: Time, d: Readings)
    requires ReadingsOf(t) == d
    ensures Format(t, "%r") == TwoDigits(d.twelveHour) + (":" + (TwoDigits(d.min) + (":" +
      (TwoDigits(d.sec) + (" " + ((if d.am then "AM" else "PM") + []))))))
  {
    FormatExpands(t);
    SubstituteClock12(d);
  }

  lemma TwelveHourClockTexts()
    ensures TwoDigits(12) + (":" + (TwoDigits(34) + (":" + (TwoDigits(56) + (" " + ("PM" + []))))))
      == "12:34:56 PM"
    ensures TwoDigits(1) + (":" + (TwoDigits(0) + (":" + (TwoDigits(12) + (" " + ("AM" + []))))))
      == "01:00:12 AM"
  {
    ExampleDigits();
  }

  /** The documentation's sentence example as pieces. */
  const SENTENCE: seq<Piece> :=
    [Literal("The time is "), Directive(true, 'l'), Literal(":"), Directive(false, 'M'), Literal(":"),
     Directive(false, 'S'), Literal(" "), Directive(false, 'P'), Literal(".")]

  lemma SentenceSpelled()
    ensures Spell(SENTENCE) == "The time is %-l:%M:%S %P."
  {
    var ps := SENTENCE;
    assert ps[8..][1..] == [];
    assert ps[7..][1..] == ps[8..];
    assert ps[6..][1..] == ps[7..];
    assert ps[5..][1..] == ps[6..];
    assert ps[4..][1..] == ps[5..];
    assert ps[3..][1..] == ps[4..];
    assert ps[2..][1..] == ps[3..];
    assert ps[1..][1..] == ps[2..];
    assert Spell(ps[8..]) == "." + [];
    assert Spell(ps[7..]) == "%P" + Spell(ps[8..]);
    assert Spell(ps[6..]) == " " + Spell(ps[7..]);
    assert Spell(ps[5..]) == "%S" + Spell(ps[6..]);
    assert Spell(ps[4..]) == ":" + Spell(ps[5..]);
    assert Spell(ps[3..]) == "%M" + Spell(ps[4..]);
    assert Spell(ps[2..]) == ":" + Spell(ps[3..]);
    assert Spell(ps[1..]) == "%-l" + Spell(ps[2..]);
    assert Spell(ps) == "The time is " + Spell(ps[1..]);
  }

  lemma SentenceParses()
    ensures Parses(SENTENCE) && NoPercentDirective(SENTENCE)
  {
    assert forall i | 0 <= i < |SENTENCE| :: PieceParses(SENTENCE[i]) by {
      var ps := SENTENCE;
      assert PieceParses(ps[0]) && PieceParses(ps[2]) && PieceParses(ps[4]) && PieceParses(ps[6]) &&
        PieceParses(ps[8]) by { SentenceLiterals(); }
      assert PieceParses(ps[1]) && PieceParses(ps[3]) && PieceParses(ps[5]) && PieceParses(ps[7]) by {
        SentenceDirectives();
      }
    }
    ParsesEach(SENTENCE);
    SentenceNoPercent();
  }

  lemma SentenceNoPercent()
    ensures NoPercentDirective(SENTENCE)
  {
  }

  lemma SentenceLiterals()
    ensures PieceParses(SENTENCE[0]) && PieceParses(SENTENCE[2]) && PieceParses(SENTENCE[4])
    ensures PieceParses(SENTENCE[6]) && PieceParses(SENTENCE[8])
  {
    SentencePrefix();
  }

  lemma SentenceDirectives()
    ensures PieceParses(SENTENCE[1]) && PieceParses(SENTENCE[3])
    ensures PieceParses(SENTENCE[5]) && PieceParses(SENTENCE[7])
  {
    ConversionLetters();
  }

  lemma SentencePrefix()
    ensures '%' !in "The time is "
  {
    var prefix := "The time is ";
    forall i | 0 <= i < |prefix|
      ensures prefix[i] != '%'
    {
    }
  }

  /** The sentence rendered at any readings. */
  lemma SentenceRendered(d: Readings)
    ensures Render(d, SENTENCE) == "The time is " + (NatToString(d.twelveHour) + (":" +
      (ZeroPad(d.min) + (":" + (ZeroPad(d.sec) + (" " + ((if d.am then "am" else "pm") + ("." + []))))))))
  {
    var ps := SENTENCE;
    assert ps[8..][1..] == [];
    assert ps[7..][1..] == ps[8..];
    assert ps[6..][1..] == ps[7..];
    assert ps[5..][1..] == ps[6..];
    assert ps[4..][1..] == ps[5..];
    assert ps[3..][1..] == ps[4..];
    assert ps[2..][1..] == ps[3..];
    assert ps[1..][1..] == ps[2..];
    assert Render(d, ps[8..]) == "." + [];
    assert Render(d, ps[7..]) == (if d.am then "am" else "pm") + Render(d, ps[8..]);
    assert Render(d, ps[6..]) == " " + Render(d, ps[7..]);
    assert Render(d, ps[5..]) == ZeroPad(d.sec) + Render(d, ps[6..]);
    assert Render(d, ps[4..]) == ":" + Render(d, ps[5..]);
    assert Render(d, ps[3..]) == ZeroPad(d.min) + Render(d, ps[4..]);
    assert Render(d, ps[2..]) == ":" + Render(d, ps[3..]);
    assert Render(d, ps[1..]) == NatToString(d.twelveHour) + Render(d, ps[2..]);
  }

  /** The documentation's sentence example, as the code computes it: 01:03:56
      is before noon, so `%P` gives `am`, not the `pm` the documentation shows. */
  lemma ExampleSentence(t: Time)
    requires ToI(t) == 3836
    ensures Format(t, "The time is %-l:%M:%S %P.") == "The time is 1:03:56 am."
  {
    var d := ReadingsOf(t);
    assert d == Readings(1, 1, 3, 56, true) by { ExampleReadings(t); }
    SentenceSpelled();
    SentenceParses();
    FormatSpell(t, SENTENCE);
    SentenceRendered(d);
    SentenceText();
  }

  lemma SentenceText()
    ensures "The time is " + (NatToString(1) + (":" + (ZeroPad(3) + (":" + (ZeroPad(56) +
      (" " + ("am" + ("." + [])))))))) == "The time is 1:03:56 am."
  {
    ExampleDigits();
  }

  /** The scenarios for the 12-hour clock, the meridian and blank padding:
      13:00 gives `01` and `PM`, 08:00 gives ` 8`. */
  lemma ExampleDirectives(t: Time, u: Time)
    requires ToI(t) == 46800 && ToI(u) == 28800
    ensures Format(t, "%I") == "01" && Format(t, "%p") == "PM"
    ensures Format(u, "%k") == " 8"
  {
    ReplacementValues(t);
    ReplacementValues(u);
    assert IsConversion('I') && IsConversion('p') && IsConversion('k') by { ConversionLetters(); }
    FormatDirective(t, 'I');
    FormatDirective(t, 'p');
    FormatDirective(u, 'k');
    ExampleReadings(t);
    ExampleReadings(u);
    ExampleDigits();
    DigitChars();
  }

  /** The arithmetic examples of the documentation, printed by `to_s`:
      `new(4) + 3` is 00:00:07 and `new(0, 0, 0) - 3` is 23:59:57. */
  lemma ExamplePrinted(t: Time, u: Time)
    requires ToI(t) == 7 && ToI(u) == 86397
    ensures ToS(t) == "00:00:07" && ToS(u) == "23:59:57"
  {
    assert Hour(t) == 0 && Min(t) == 0 && Sec(t) == 7 by { ExampleReadings(t); }
    assert Hour(u) == 23 && Min(u) == 59 && Sec(u) == 57 by { ExampleReadings(u); }
    PrintedTexts();
  }

  lemma PrintedTexts()
    ensures TwoDigits(0) + ":" + TwoDigits(0) + ":" + TwoDigits(7) == "00:00:07"
    ensures TwoDigits(23) + ":" + TwoDigits(59) + ":" + TwoDigits(57) == "23:59:57"
  {
    ExampleDigits();
  }
}
