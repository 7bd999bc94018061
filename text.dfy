/** The text-level pieces the codecs share: decimal integers as `std::from_chars`
    and stream extraction read them and as `fmt::format("{}")` prints them,
    whitespace-separated tokens, line prefixes, and the float conversions,
    which stay abstract. */
module Text {

  datatype Option<T> = None | Some(value: T)

  /** One more than the largest `std::size_t`. */
  const Word: nat := 0x1_0000_0000_0000_0000

  predicate IsDigit(c: char) { '0' <= c <= '9' }

  /** The characters stream extraction skips and `getline` does not keep. */
  predicate IsSpace(c: char)
  {
    c == ' ' || c == '\t' || c == '\n' || c == '\r' || c == '\U{000C}' || c == '\U{000B}'
  }

  predicate AllDigits(s: string) { forall i :: 0 <= i < |s| ==> IsDigit(s[i]) }

  predicate NoSpace(s: string) { forall i :: 0 <= i < |s| ==> !IsSpace(s[i]) }

  /** `line.starts_with(prefix)`. */
  predicate StartsWith(s: string, prefix: string)
  {
    |prefix| <= |s| && s[..|prefix|] == prefix
  }

  /** A line that differs from `prefix` at some position within both does not
      start with it. */
  lemma DiffersAt(s: string, prefix: string, i: nat)
    requires i < |s| && i < |prefix| && s[i] != prefix[i]
    ensures !StartsWith(s, prefix)
  {
    if |prefix| <= |s| {
      assert s[..|prefix|][i] == s[i];
    }
  }

  /** The value of a string of decimal digits, most significant first. */
  function DecimalValue(ds: string): nat
    requires AllDigits(ds)
  {
    if ds == [] then 0
    else DecimalValue(ds[..|ds| - 1]) * 10 + (ds[|ds| - 1] as int - '0' as int)
  }

  /** `fmt::format("{}", n)` for an unsigned integer. */
  function NatToString(n: nat): (s: string)
    ensures |s| > 0 && AllDigits(s)
  {
    if n < 10 then [('0' as int + n) as char]
    else NatToString(n / 10) + [('0' as int + n % 10) as char]
  }

  /** Reading back what was printed gives the number again. */
  lemma {:induction false} DecimalValueOfNatToString(n: nat)
    ensures DecimalValue(NatToString(n)) == n
  {
    var s := NatToString(n);
    if n >= 10 {
      DecimalValueOfNatToString(n / 10);
      assert s[..|s| - 1] == NatToString(n / 10);
    }
  }

  /** How many digits follow position `start`. */
  function DigitRun(s: string, start: nat): (n: nat)
    requires start <= |s|
    ensures start + n <= |s|
    ensures AllDigits(s[start..start + n])
    ensures start + n < |s| ==> !IsDigit(s[start + n])
    decreases |s| - start
  {
    if start == |s| || !IsDigit(s[start]) then 0
    else
      var n := 1 + DigitRun(s, start + 1);
      assert s[start..start + n] == [s[start]] + s[start + 1..start + n];
      n
  }

  /** `std::from_chars` of a `std::size_t` starting at `start`: the longest run
      of digits there, which must not be empty and must fit in 64 bits. No
      sign and no leading whitespace are accepted. */
  function FromChars(s: string, start: nat): (r: Option<nat>)
    requires start <= |s|
    ensures r.Some? ==> r.value < Word
    ensures start == |s| || !IsDigit(s[start]) ==> r.None?
  {
    var n := DigitRun(s, start);
    if n == 0 then None
    else
      var v := DecimalValue(s[start..start + n]);
      if v < Word then Some(v) else None
  }

  /** A printed count is read back by `FromChars` when nothing but a non-digit
      follows it. */
  lemma {:induction false} FromCharsOfNatToString(prefix: string, n: nat, rest: string)
    requires n < Word
    requires rest == [] || !IsDigit(rest[0])
    ensures FromChars(prefix + NatToString(n) + rest, |prefix|) == Some(n)
  {
    var d := NatToString(n);
    var s := prefix + d + rest;
    DigitRunOf(s, |prefix|, |d|);
    assert s[|prefix|..|prefix| + |d|] == d;
    DecimalValueOfNatToString(n);
  }

  /** The digit run of `s` at `start` is exactly `k` long when `k` digits are
      followed by the end or a non-digit. */
  lemma {:induction false} DigitRunOf(s: string, start: nat, k: nat)
    requires start + k <= |s|
    requires AllDigits(s[start..start + k])
    requires start + k == |s| || !IsDigit(s[start + k])
    ensures DigitRun(s, start) == k
    decreases k
  {
    if k > 0 {
      assert s[start + 1..start + k] == s[start..start + k][1..];
      DigitRunOf(s, start + 1, k - 1);
    }
  }

  /** Length of the leading run of non-space characters. */
  function WordLength(s: string): (n: nat)
    ensures n <= |s|
    ensures NoSpace(s[..n])
    ensures n < |s| ==> IsSpace(s[n])
  {
    if s == [] || IsSpace(s[0]) then 0
    else
      var n := 1 + WordLength(s[1..]);
      assert s[..n] == [s[0]] + s[1..][..n - 1];
      n
  }

  /** The whitespace-separated tokens of `s`, in order. */
  function Words(s: string): (ws: seq<string>)
    ensures forall i :: 0 <= i < |ws| ==> |ws[i]| > 0 && NoSpace(ws[i])
    decreases |s|
  {
    if s == [] then []
    else if IsSpace(s[0]) then Words(s[1..])
    else
      var n := WordLength(s);
      [s[..n]] + Words(s[n..])
  }

  /** The tokens of a sequence of lines: a newline separates tokens like any
      other whitespace, so these are the tokens a stream reads from the lines. */
  function LineTokens(lines: seq<string>): seq<string>
  {
    if lines == [] then [] else Words(lines[0]) + LineTokens(lines[1..])
  }

  lemma {:induction false} LineTokensAppend(a: seq<string>, b: seq<string>)
    ensures LineTokens(a + b) == LineTokens(a) + LineTokens(b)
  {
    if a == [] {
      assert a + b == b;
    } else {
      assert (a + b)[0] == a[0];
      assert (a + b)[1..] == a[1..] + b;
      LineTokensAppend(a[1..], b);
    }
  }

  lemma {:induction false} WordLengthOfWord(w: string, rest: string)
    requires NoSpace(w)
    requires rest == [] || IsSpace(rest[0])
    ensures WordLength(w + rest) == |w|
    decreases |w|
  {
    if w != [] {
      assert (w + rest)[1..] == w[1..] + rest;
      WordLengthOfWord(w[1..], rest);
    }
  }

  /** A token followed by a space and more text splits off as the first token. */
  lemma {:induction false} WordsCons(w: string, rest: string)
    requires |w| > 0 && NoSpace(w)
    ensures Words(w + " " + rest) == [w] + Words(rest)
  {
    var tail := " " + rest;
    var s := w + tail;
    assert w + " " + rest == s;
    WordLengthOfWord(w, tail);
    assert s[0] == w[0];
    assert s[..|w|] == w;
    assert s[|w|..] == tail;
    assert tail[1..] == rest;
    assert Words(tail) == Words(rest);
  }

  /** A single token is its own only token. */
  lemma {:induction false} WordsSingle(w: string)
    requires |w| > 0 && NoSpace(w)
    ensures Words(w) == [w]
  {
    WordLengthOfWord(w, []);
    assert w + [] == w;
    assert w[|w|..] == [];
  }

  /** What stream extraction of a float made of the characters at the front
      of a token: the value and how many characters it consumed, or a failure
      together with the value it stores (zero for text that is not a number,
      the largest float for a number that does not fit). */
  datatype FloatRead = Read(value: real, length: nat) | Failed(stored: real)

  /** The float conversions the codecs call, left abstract:
      - `scan` is `std::from_chars` of a float at the start of a string: the
        value and how many characters it consumed;
      - `extract` is `operator>>` of a float at the start of a token: it reads
        the longest prefix that forms a number, and leaves the rest;
      - `show` is `fmt::format("{}")` of a float. */
  datatype FloatText = FloatText(scan: string -> Option<(real, nat)>, extract: string -> FloatRead, show: real -> string)

  /** The coordinates `rs` print as non-empty tokens that extraction reads
      back, whole, as the same numbers. */
  ghost predicate RoundTripsOn(text: FloatText, rs: set<real>)
  {
    forall r | r in rs :: |text.show(r)| > 0 && NoSpace(text.show(r)) && text.extract(text.show(r)) == Read(r, |text.show(r)|)
  }

  /** The coordinates `rs` print as text that `scan` reads back, stopping at
      the space after it or at the end of the line. */
  ghost predicate ScansPrintedOn(text: FloatText, rs: set<real>)
  {
    forall r, rest {:trigger text.scan(text.show(r) + rest)} | r in rs && (rest == [] || rest[0] == ' ') ::
      text.scan(text.show(r) + rest) == Option<(real, nat)>.Some((r, |text.show(r)|))
  }

  /** Both premises carry over to fewer coordinates. */
  lemma RoundTripsOnFewer(text: FloatText, rs: set<real>, more: set<real>)
    requires rs <= more
    ensures RoundTripsOn(text, more) ==> RoundTripsOn(text, rs)
    ensures ScansPrintedOn(text, more) ==> ScansPrintedOn(text, rs)
  {
  }

  /** Whether `r` is a whole number. */
  predicate Integral(r: real)
  {
    r.Floor as real == r
  }

  /** Decimal text of a whole number, with a minus sign in front when it is
      negative; any other number prints as "0". */
  function ShowInteger(r: real): string
  {
    if !Integral(r) then "0"
    else if r < 0.0 then "-" + NatToString(-r.Floor)
    else NatToString(r.Floor)
  }

  /** A decimal integer, with an optional minus sign, at the start of `s`:
      its value and its length. */
  function ScanInteger(s: string): (r: Option<(real, nat)>)
    ensures r.Some? ==> 0 < r.value.1 <= |s|
  {
    var negative := |s| > 0 && s[0] == '-';
    var start := if negative then 1 else 0;
    var n := DigitRun(s, start);
    if n == 0 then None
    else
      var v := DecimalValue(s[start..start + n]) as real;
      Some((if negative then -v else v, start + n))
  }

  function ExtractInteger(s: string): FloatRead
  {
    match ScanInteger(s)
    case None => Failed(0.0)
    case Some(p) => Read(p.0, p.1)
  }

  /** A conversion triple that prints whole numbers in decimal and reads
      decimal integers back. It shows that the round-trip premises can be
      met: it meets them for any set of whole numbers. */
  const IntegerText: FloatText := FloatText(ScanInteger, ExtractInteger, ShowInteger)

  /** A printed whole number followed by a non-digit reads back. */
  lemma ScanIntegerOfShown(r: real, rest: string)
    requires Integral(r) && (rest == [] || !IsDigit(rest[0]))
    ensures |ShowInteger(r)| > 0 && NoSpace(ShowInteger(r))
    ensures ScanInteger(ShowInteger(r) + rest) == Option<(real, nat)>.Some((r, |ShowInteger(r)|))
  {
    if r < 0.0 {
      var n: nat := -r.Floor;
      var d := NatToString(n);
      var s := "-" + d + rest;
      assert ShowInteger(r) + rest == s;
      assert s[1..1 + |d|] == d;
      DigitRunOf(s, 1, |d|);
      DecimalValueOfNatToString(n);
    } else {
      var n: nat := r.Floor;
      var d := NatToString(n);
      var s := d + rest;
      assert ShowInteger(r) + rest == s;
      assert s[0..|d|] == d;
      DigitRunOf(s, 0, |d|);
      DecimalValueOfNatToString(n);
    }
  }

  /** `IntegerText` meets both round-trip premises on whole numbers. */
  lemma IntegerTextRoundTrips(rs: set<real>)
    requires forall r | r in rs :: Integral(r)
    ensures RoundTripsOn(IntegerText, rs) && ScansPrintedOn(IntegerText, rs)
  {
    forall r | r in rs
      ensures |ShowInteger(r)| > 0 && NoSpace(ShowInteger(r)) && ExtractInteger(ShowInteger(r)) == Read(r, |ShowInteger(r)|)
    {
      ScanIntegerOfShown(r, []);
      assert ShowInteger(r) + [] == ShowInteger(r);
    }
    forall r, rest | r in rs && (rest == [] || rest[0] == ' ')
      ensures ScanInteger(ShowInteger(r) + rest) == Option<(real, nat)>.Some((r, |ShowInteger(r)|))
    {
      ScanIntegerOfShown(r, rest);
    }
  }

  /** The outcome of `operator>>` of a `std::size_t` at the start of a token,
      as `num_get` does it: an optional sign, then the longest run of digits,
      leaving the characters after them in the stream. The result is the
      value stored, how many characters were consumed, and whether the
      extraction failed. No digit stores zero and fails; a magnitude that does
      not fit stores the largest value and fails; a minus sign wraps the value
      modulo 2^64 (to 2^64 minus the magnitude, or zero for a zero
      magnitude). */
  function ExtractIndex(token: string): (r: (nat, nat, bool))
    ensures r.0 < Word
    ensures !r.2 ==> 0 < r.1 <= |token|
  {
    var signed := |token| > 0 && (token[0] == '-' || token[0] == '+');
    var start := if signed then 1 else 0;
    var n := DigitRun(token, start);
    if n == 0 then (0, start, true)
    else
      var v := DecimalValue(token[start..start + n]);
      if v >= Word then (Word - 1, start + n, true)
      else if signed && token[0] == '-' then (if v == 0 then 0 else Word - v, start + n, false)
      else (v, start + n, false)
  }

  /** Digits that fit, followed by the end of the token or a non-digit, read
      as their value and consume exactly themselves. */
  lemma {:induction false} ExtractIndexOfDigits(digits: string, rest: string)
    requires |digits| > 0 && AllDigits(digits) && DecimalValue(digits) < Word
    requires rest == [] || !IsDigit(rest[0])
    ensures ExtractIndex(digits + rest) == (DecimalValue(digits), |digits|, false)
  {
    var s := digits + rest;
    assert s[0] == digits[0];
    assert s[0..|digits|] == digits;
    DigitRunOf(s, 0, |digits|);
  }

  /** A printed index reads back, whatever non-digit follows it. */
  lemma ExtractIndexOfNatToString(n: nat, rest: string)
    requires n < Word
    requires rest == [] || !IsDigit(rest[0])
    ensures ExtractIndex(NatToString(n) + rest) == (n, |NatToString(n)|, false)
  {
    DecimalValueOfNatToString(n);
    ExtractIndexOfDigits(NatToString(n), rest);
  }

  /** A printed index on its own reads back whole. */
  lemma PrintedIndex(n: nat)
    requires n < Word
    ensures ExtractIndex(NatToString(n)) == (n, |NatToString(n)|, false)
  {
    ExtractIndexOfNatToString(n, []);
    assert NatToString(n) + [] == NatToString(n);
  }

  /** A minus sign wraps: "-1" reads as the largest index. */
  lemma MinusOneWraps()
    ensures ExtractIndex("-1") == (Word - 1, 2, false)
  {
    assert "-1"[1..2] == "1";
    assert DecimalValue("1") == DecimalValue("") * 10 + 1;
  }

  /** An index extraction stops where the digits stop: "1.5" reads as 1 and
      leaves ".5", which then fails to read. */
  lemma IndexStopsAtPoint()
    ensures ExtractIndex("1.5") == (1, 1, false)
    ensures ExtractIndex(".5").2
  {
    OneBeforePoint();
    PointIsNoIndex();
  }

  lemma OneBeforePoint()
    ensures ExtractIndex("1.5") == (1, 1, false)
  {
    assert "1.5" == "1" + ".5";
    assert DecimalValue("1") == DecimalValue("") * 10 + 1;
    ExtractIndexOfDigits("1", ".5");
  }

  lemma PointIsNoIndex()
    ensures ExtractIndex(".5").2
  {
    assert !IsDigit(".5"[0]);
  }

  /** The number of characters left in the tokens. */
  function Chars(ws: seq<string>): nat
  {
    if ws == [] then 0 else |ws[0]| + Chars(ws[1..])
  }

  /** The tokens after the first `n` characters of the first one are
      consumed: a token read only in part leaves its other characters in
      front. */
  function Consume(ws: seq<string>, n: nat): (r: seq<string>)
    requires ws != [] && 0 < n <= |ws[0]|
    ensures Chars(r) == Chars(ws) - n
  {
    if n == |ws[0]| then ws[1..]
    else
      var r := [ws[0][n..]] + ws[1..];
      assert r[1..] == ws[1..];
      r
  }

  /** Whether float extraction reads a number at the start of `token`. */
  predicate ExtractsFloat(text: FloatText, token: string)
  {
    text.extract(token).Read? && 0 < text.extract(token).length <= |token|
  }

  /** An input stream: the tokens still to be read, and whether an extraction
      has failed. Once one has, every later extraction fails too and leaves
      its target zero. An extraction may consume only the front of a token;
      the rest of it is then the next thing read. */
  datatype Stream = Stream(rest: seq<string>, failed: bool)
  {
    /** `stream >> f` for a float `f` initialised to zero. */
    function ReadFloat(text: FloatText): (r: (real, Stream))
      ensures failed || rest == [] ==> r == (0.0, this.(failed := true))
      ensures !r.1.failed <==> !failed && rest != [] && ExtractsFloat(text, rest[0])
      ensures !r.1.failed ==> Chars(r.1.rest) < Chars(rest)
      ensures !r.1.failed ==> r == (text.extract(rest[0]).value, Stream(Consume(rest, text.extract(rest[0]).length), false))
      ensures !failed && rest != [] && text.extract(rest[0]).Failed? ==> r == (text.extract(rest[0]).stored, this.(failed := true))
    {
      if failed || rest == [] then (0.0, this.(failed := true))
      else match text.extract(rest[0])
        case Read(v, n) => if 0 < n <= |rest[0]| then (v, Stream(Consume(rest, n), false)) else (0.0, this.(failed := true))
        case Failed(v) => (v, this.(failed := true))
    }

    /** `stream >> i` for a `std::size_t` initialised to zero. */
    function ReadIndex(): (r: (nat, Stream))
      ensures r.0 < Word
      ensures failed || rest == [] ==> r == (0, this.(failed := true))
      ensures !r.1.failed <==> !failed && rest != [] && !ExtractIndex(rest[0]).2
      ensures !r.1.failed ==> Chars(r.1.rest) < Chars(rest)
      ensures !r.1.failed ==> r == (ExtractIndex(rest[0]).0, Stream(Consume(rest, ExtractIndex(rest[0]).1), false))
    {
      if failed || rest == [] then (0, this.(failed := true))
      else
        var (v, n, bad) := ExtractIndex(rest[0]);
        if bad then (v, this.(failed := true)) else (v, Stream(Consume(rest, n), false))
    }
  }

  /** Reading a float from a good stream whose next token reads whole. */
  lemma ReadFloatOf(token: string, rest: seq<string>, text: FloatText, v: real)
    requires |token| > 0 && text.extract(token) == Read(v, |token|)
    ensures Stream([token] + rest, false).ReadFloat(text) == (v, Stream(rest, false))
  {
    assert ([token] + rest)[1..] == rest;
  }

  /** Reading an index from a good stream whose next token reads whole. */
  lemma ReadIndexOf(token: string, rest: seq<string>, v: nat)
    requires ExtractIndex(token) == (v, |token|, false)
    ensures Stream([token] + rest, false).ReadIndex() == (v, Stream(rest, false))
  {
    assert ([token] + rest)[1..] == rest;
  }

  /** A token that starts with digits and goes on with something else: the
      digits are read and the rest of the token stays in front of the
      stream. */
  lemma ReadIndexOfPrefix(digits: string, tail: string, rest: seq<string>)
    requires |digits| > 0 && AllDigits(digits) && DecimalValue(digits) < Word
    requires |tail| > 0 && !IsDigit(tail[0])
    ensures Stream([digits + tail] + rest, false).ReadIndex() == (DecimalValue(digits), Stream([tail] + rest, false))
  {
    ExtractIndexOfDigits(digits, tail);
    assert (digits + tail)[|digits|..] == tail;
    assert ([digits + tail] + rest)[1..] == rest;
  }
}
