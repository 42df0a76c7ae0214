/** The C library text routines the store depends on: printf("%d"), the "%d" and "%s"
    conversions of fscanf, atoi, strtok with a blank as the only delimiter, and fgets. */
module CText {

  datatype Option<+T> = None | Some(value: T)

  /** What a conversion of fscanf makes of its input, and the position at which the next one goes on. */
  datatype IntScan = NoInt | AnInt(n: int, end: nat)
  datatype WordScan = NoWord | AWord(word: string, end: nat)

  /** The kinds of characters a scan runs over. */
  datatype Kind = Digit | Space | NonSpace | Blank | NonBlank | NotLineEnd | NotNul

  predicate Is(kind: Kind, c: char) {
    match kind
    case Digit => '0' <= c <= '9'
    case Space => IsSpace(c)
    case NonSpace => !IsSpace(c)
    case Blank => c == ' '
    case NonBlank => c != ' '
    case NotLineEnd => c != '\n'
    case NotNul => c != '\0'
  }

  /** isspace in the "C" locale: blank, and the codes 9 (\t) to 13 (\r). */
  predicate IsSpace(c: char) {
    c == ' ' || '\t' <= c <= '\r'
  }

  predicate All(kind: Kind, s: string) {
    forall i :: 0 <= i < |s| ==> Is(kind, s[i])
  }

  /** The position behind the longest run of characters of one kind that starts at from. */
  function Span(s: string, from: nat, kind: Kind): (end: nat)
    requires from <= |s|
    ensures from <= end <= |s|
    ensures forall i :: from <= i < end ==> Is(kind, s[i])
    ensures end < |s| ==> !Is(kind, s[end])
    decreases |s| - from
  {
    if from == |s| || !Is(kind, s[from]) then from else Span(s, from + 1, kind)
  }

  lemma SpanIs(s: string, from: nat, kind: Kind, end: nat)
    requires from <= end <= |s|
    requires forall i :: from <= i < end ==> Is(kind, s[i])
    requires end < |s| ==> !Is(kind, s[end])
    ensures Span(s, from, kind) == end
  {
  }

  /** Concatenation is associative; named, so that long rearrangements need no search. */
  lemma Assoc<T>(a: seq<T>, b: seq<T>, c: seq<T>)
    ensures (a + b) + c == a + (b + c)
  {
  }

  // ---------------------------------------------------------------- decimal numbers

  function DigitChar(d: nat): (c: char)
    requires d < 10
    ensures Is(Digit, c) && DigitValue(c) == d
  {
    ('0' as int + d) as char
  }

  function DigitValue(c: char): (d: nat)
    requires Is(Digit, c)
    ensures d < 10
  {
    c as int - '0' as int
  }

  /** printf("%d") of a number that is not negative. */
  function PrintNat(n: nat): (s: string)
    ensures |s| >= 1 && All(Digit, s)
  {
    if n < 10 then [DigitChar(n)] else PrintNat(n / 10) + [DigitChar(n % 10)]
  }

  /** printf("%d"). */
  function PrintInt(n: int): (s: string)
    ensures |s| >= 1
    ensures forall i :: 0 <= i < |s| ==> Is(Digit, s[i]) || s[i] == '-'
  {
    if n < 0 then "-" + PrintNat(-n) else PrintNat(n)
  }

  /** The number a string of digits denotes. */
  function ValueOf(s: string): nat
    requires All(Digit, s)
  {
    if s == [] then 0 else 10 * ValueOf(s[..|s| - 1]) + DigitValue(s[|s| - 1])
  }

  lemma {:induction false} ValueOfPrintNat(n: nat)
    ensures ValueOf(PrintNat(n)) == n
  {
    if n >= 10 {
      ValueOfPrintNat(n / 10);
      assert PrintNat(n)[..|PrintNat(n)| - 1] == PrintNat(n / 10);
    } else {
      assert PrintNat(n)[..0] == [];
    }
  }

  /** How long a printed number gets: n has at most d digits when it is below ten to the d. */
  function Pow10(d: nat): (p: nat)
    ensures p >= 1
  {
    if d == 0 then 1 else 10 * Pow10(d - 1)
  }

  lemma {:induction false} PrintNatLength(n: nat, d: nat)
    requires d >= 1 && n < Pow10(d)
    ensures |PrintNat(n)| <= d
  {
    if n >= 10 {
      PrintNatLength(n / 10, d - 1);
    }
  }

  /** The "%d" conversion: white space is skipped, a sign may follow, and at least one digit must. */
  function ScanInt(s: string, from: nat): (r: IntScan)
    requires from <= |s|
    ensures r.AnInt? ==> from < r.end <= |s|
  {
    var start := Span(s, from, Space);
    var signed := start < |s| && (s[start] == '-' || s[start] == '+');
    var first := if signed then start + 1 else start;
    var end := Span(s, first, Digit);
    assert forall i :: 0 <= i < end - first ==> s[first..end][i] == s[first + i];
    if end == first then NoInt
    else AnInt(if signed && s[start] == '-' then -(ValueOf(s[first..end]) as int) else ValueOf(s[first..end]), end)
  }

  /** The "%s" conversion: white space is skipped, then everything up to the next white space. */
  function ScanWord(s: string, from: nat): (r: WordScan)
    requires from <= |s|
    ensures r.AWord? ==> from < r.end <= |s|
  {
    var start := Span(s, from, Space);
    var end := Span(s, start, NonSpace);
    if end == start then NoWord else AWord(s[start..end], end)
  }

  /** atoi: as "%d", and 0 when there is no number. */
  function Atoi(s: string): int {
    match ScanInt(s, 0)
    case AnInt(n, _) => n
    case NoInt => 0
  }

  /** The text x stands in s at position p. */
  predicate At(s: string, p: nat, x: string) {
    p + |x| <= |s| && s[p..p + |x|] == x
  }

  lemma AtParts(s: string, p: nat, a: string, b: string)
    requires At(s, p, a + b)
    ensures At(s, p, a) && At(s, p + |a|, b)
  {
    assert a == (a + b)[..|a|] && b == (a + b)[|a|..];
    assert s[p..p + |a|] == s[p..p + |a + b|][..|a|];
    assert s[p + |a|..p + |a + b|] == s[p..p + |a + b|][|a|..];
  }

  predicate SpacesBetween(s: string, from: nat, to: nat)
    requires from <= to <= |s|
  {
    forall i :: from <= i < to ==> IsSpace(s[i])
  }

  lemma DigitsAt(s: string, from: nat, to: nat, n: nat)
    requires from <= to <= |s| && s[from..to] == PrintNat(n)
    ensures from < to && ValueOf(s[from..to]) == n
    ensures forall i :: from <= i < to ==> Is(Digit, s[i])
  {
    ValueOfPrintNat(n);
    assert forall i :: from <= i < to ==> s[i] == s[from..to][i - from];
  }

  lemma SignAt(s: string, at: nat, n: int)
    requires At(s, at, PrintInt(n))
    ensures n < 0 ==> s[at] == '-' && s[at + 1..at + |PrintInt(n)|] == PrintNat(-n)
  {
    if n < 0 {
      AtParts(s, at, "-", PrintNat(-n));
      assert s[at] == s[at..at + 1][0];
    }
  }

  /** "%d" reads back what printf("%d") wrote, after any white space, and stops right behind it. */
  lemma ScanIntPrinted(s: string, from: nat, at: nat, n: int)
    requires from <= at && At(s, at, PrintInt(n)) && SpacesBetween(s, from, at)
    requires at + |PrintInt(n)| < |s| ==> !Is(Digit, s[at + |PrintInt(n)|])
    ensures ScanInt(s, from) == AnInt(n, at + |PrintInt(n)|)
  {
    var end := at + |PrintInt(n)|;
    var first := if n < 0 then at + 1 else at;
    SignAt(s, at, n);
    DigitsAt(s, first, end, if n < 0 then -n else n);
    hide PrintInt, PrintNat, ValueOf;
    SpanIs(s, from, Space, at);
    SpanIs(s, first, Digit, end);
  }

  lemma ScanWordPrinted(s: string, from: nat, at: nat, word: string)
    requires from <= at && At(s, at, word) && SpacesBetween(s, from, at)
    requires word != [] && All(NonSpace, word)
    requires at + |word| < |s| ==> IsSpace(s[at + |word|])
    ensures ScanWord(s, from) == AWord(word, at + |word|)
  {
    forall i | at <= i < at + |word| ensures s[i] == word[i - at] {
      assert s[at..at + |word|][i - at] == word[i - at];
    }
    SpanIs(s, from, Space, at);
    SpanIs(s, at, NonSpace, at + |word|);
  }

  lemma AtoiPrinted(n: int)
    ensures Atoi(PrintInt(n)) == n
  {
    ScanIntPrinted(PrintInt(n), 0, 0, n);
  }

  // ---------------------------------------------------------------- lines and tokens

  /** What fgets leaves in a buffer of the given size, read as a C string: the characters from a position
      up to and including the first line end, at most size - 1 of them, cut at a terminator. */
  function Fgets(s: string, from: nat, size: nat): (line: string)
    requires from <= |s| && size >= 1
  {
    var lineEnd := Span(s, from, NotLineEnd);
    var end := if lineEnd < |s| then lineEnd + 1 else lineEnd;
    var read := s[from..if end - from < size then end else from + size - 1];
    read[..Span(read, 0, NotNul)]
  }

  datatype Tokenised = NoToken | AToken(token: string, next: nat)

  /** strtok with " ": the next token, and where to go on behind its delimiter. */
  function Token(s: string, from: nat): (r: Tokenised)
    requires from <= |s|
    ensures r.AToken? ==> r.token != [] && from < r.next <= |s|
  {
    var start := Span(s, from, Blank);
    var end := Span(s, start, NonBlank);
    if end == start then NoToken else AToken(s[start..end], if end < |s| then end + 1 else end)
  }

  lemma TokenIs(s: string, from: nat, word: string)
    requires At(s, from, word) && word != [] && All(NonBlank, word)
    requires from + |word| < |s| ==> s[from + |word|] == ' '
    ensures Token(s, from) == AToken(word, if from + |word| < |s| then from + |word| + 1 else |s|)
  {
    forall i | from <= i < from + |word| ensures s[i] == word[i - from] {
      assert s[from..from + |word|][i - from] == word[i - from];
    }
    SpanIs(s, from, Blank, from);
    SpanIs(s, from, NonBlank, from + |word|);
  }

  lemma FgetsLine(s: string, from: nat, line: string, size: nat)
    requires At(s, from, line + "\n") && All(NotLineEnd, line) && All(NotNul, line)
    requires |line| + 1 < size
    ensures Fgets(s, from, size) == line + "\n"
  {
    var text := line + "\n";
    forall i | from <= i < from + |text| ensures s[i] == text[i - from] {
      assert s[from..from + |text|][i - from] == text[i - from];
    }
    SpanIs(s, from, NotLineEnd, from + |line|);
    SpanIs(text, 0, NotNul, |text|);
  }
}
