// The text headers exchanged by TcpClient: how the sender builds them
// (sendMessage, sendFile) and how the receive loop classifies them (start).

module Headers {
  import opened Basics

  const TextPrefix: string := "Text:"
  const FilePrefix: string := "File:"

  /** Range of Kotlin's `Long`. */
  const LongMin: int := -0x8000_0000_0000_0000
  const LongMax: int := 0x7FFF_FFFF_FFFF_FFFF

  /** What the receive loop makes of one header. */
  datatype Header =
    | IncomingText(text: string)
    | FileAnnouncement(fileName: string, fileSize: int)
    | Rejected(reason: Rejection)

  datatype Rejection = TooFewParts | BadSize | UnknownType

  predicate StartsWith(s: string, prefix: string)
  {
    |prefix| <= |s| && s[..|prefix|] == prefix
  }

  // ----- Kotlin's String.split(":"), Long.toString and String.toLongOrNull

  /** `s.split(sep)`: the maximal runs between separators, empty runs included,
      so there is one part more than there are separators. */
  function Split(s: string, sep: char): (parts: seq<string>)
    ensures |parts| == Occurrences(s, sep) + 1
  {
    if s == [] then [""]
    else if s[0] == sep then [""] + Split(s[1..], sep)
    else
      var rest := Split(s[1..], sep);
      [[s[0]] + rest[0]] + rest[1..]
  }

  /** How many times `c` occurs in `s`. */
  function Occurrences(s: string, c: char): nat
  {
    if s == [] then 0 else (if s[0] == c then 1 else 0) + Occurrences(s[1..], c)
  }

  /** The inverse of Split: the parts glued back together with the separator. */
  function Join(parts: seq<string>, sep: char): string
    requires |parts| >= 1
  {
    if |parts| == 1 then parts[0] else parts[0] + [sep] + Join(parts[1..], sep)
  }

  predicate IsDigit(c: char)
  {
    '0' <= c <= '9'
  }

  predicate AllDigits(s: string)
  {
    forall i | 0 <= i < |s| :: IsDigit(s[i])
  }

  function DigitValue(c: char): nat
    requires IsDigit(c)
  {
    c as int - '0' as int
  }

  /** The number a run of decimal digits denotes (leading zeros allowed). */
  function DigitsValue(s: string): nat
    requires AllDigits(s)
  {
    if s == [] then 0 else DigitsValue(s[..|s| - 1]) * 10 + DigitValue(s[|s| - 1])
  }

  /** `n.toString()` for a non-negative Long: decimal, no leading zeros. */
  function Decimal(n: nat): (s: string)
    ensures |s| >= 1 && AllDigits(s)
    ensures s[0] == '0' ==> n == 0
  {
    if n < 10 then [('0' as int + n) as char]
    else Decimal(n / 10) + [('0' as int + n % 10) as char]
  }

  /** `s.toLongOrNull()`: an optional sign, at least one digit, and a value in Long's range. */
  function ParseLong(s: string): (r: Option<int>)
    ensures r.Some? ==> LongMin <= r.value <= LongMax
  {
    if |s| == 0 then None
    else if s[0] < '0' then
      if |s| == 1 then None
      else if s[0] == '-' then
        if AllDigits(s[1..]) && LongMin <= -(DigitsValue(s[1..]) as int) then Some(-(DigitsValue(s[1..]) as int)) else None
      else if s[0] == '+' then
        if AllDigits(s[1..]) && DigitsValue(s[1..]) <= LongMax then Some(DigitsValue(s[1..])) else None
      else None
    else if AllDigits(s) && DigitsValue(s) <= LongMax then Some(DigitsValue(s))
    else None
  }

  // ----- The header codec

  /** The header sendMessage writes: the text prefix and the message. */
  function TextHeaderFor(message: string): string
  {
    TextPrefix + message
  }

  /** The header sendFile writes: the file prefix, the file's name, ':' and its length. */
  function FileHeaderFor(fileName: string, fileSize: nat): (h: string)
    ensures StartsWith(h, FilePrefix) && !StartsWith(h, TextPrefix)
  {
    FilePrefix + fileName + ":" + Decimal(fileSize)
  }

  /** The classification made by the receive loop: the text prefix is tested
      first; a file header is split on ':', needs three parts, and takes its
      name from the second part and its size from the third. */
  function Dispatch(header: string): Header
  {
    if StartsWith(header, TextPrefix) then IncomingText(header[|TextPrefix|..])
    else if StartsWith(header, FilePrefix) then
      var parts := Split(header, ':');
      if |parts| < 3 then Rejected(TooFewParts)
      else
        match ParseLong(parts[2])
        case None => Rejected(BadSize)
        case Some(size) => FileAnnouncement(parts[1], size)
    else Rejected(UnknownType)
  }

  // ----- Split and Join

  lemma {:induction false} SplitJoin(s: string, sep: char)
    ensures Join(Split(s, sep), sep) == s
    ensures forall i | 0 <= i < |Split(s, sep)| :: sep !in Split(s, sep)[i]
  {
    if s == [] {
    } else if s[0] == sep {
      SplitJoin(s[1..], sep);
      assert s == [sep] + s[1..];
    } else {
      SplitJoin(s[1..], sep);
      var rest := Split(s[1..], sep);
      if |rest| == 1 {
        assert s == [s[0]] + s[1..];
      } else {
        assert Join(rest, sep) == rest[0] + [sep] + Join(rest[1..], sep);
        assert s == [s[0]] + s[1..];
      }
      assert [s[0]] + rest[0] == [s[0]] + rest[0];
      forall i | 0 <= i < |Split(s, sep)|
        ensures sep !in Split(s, sep)[i]
      {
        if i > 0 { assert Split(s, sep)[i] == rest[i]; }
      }
    }
  }

  lemma {:induction false} SplitWithoutSeparator(s: string, sep: char)
    requires sep !in s
    ensures Split(s, sep) == [s]
  {
    if s != [] {
      SplitWithoutSeparator(s[1..], sep);
      assert s == [s[0]] + s[1..];
    }
  }

  /** Splitting `a ++ sep ++ b` where `a` has no separator cuts exactly after `a`. */
  lemma {:induction false} SplitAfter(a: string, sep: char, b: string)
    requires sep !in a
    ensures Split(a + [sep] + b, sep) == [a] + Split(b, sep)
  {
    if a == [] {
      assert a + [sep] + b == [sep] + b;
      assert ([sep] + b)[1..] == b;
    } else {
      SplitAfter(a[1..], sep, b);
      assert (a + [sep] + b)[1..] == a[1..] + [sep] + b;
      assert [a[0]] + a[1..] == a;
    }
  }

  // ----- Decimal rendering and toLongOrNull

  lemma {:induction false} DecimalDigits(n: nat)
    ensures DigitsValue(Decimal(n)) == n
  {
    if n >= 10 {
      DecimalDigits(n / 10);
      var s := Decimal(n);
      assert s[..|s| - 1] == Decimal(n / 10);
    }
  }

  /** toLongOrNull reads back what Long.toString wrote, for every non-negative Long. */
  lemma ParseDecimal(n: nat)
    requires n <= LongMax
    ensures ParseLong(Decimal(n)) == Some(n)
  {
    DecimalDigits(n);
  }

  // ----- Properties of the header codec

  /** A text header always dispatches back to the exact message, whatever it contains. */
  lemma TextRoundTrip(message: string)
    ensures Dispatch(TextHeaderFor(message)) == IncomingText(message)
  {
    assert TextHeaderFor(message)[..|TextPrefix|] == TextPrefix;
    assert TextHeaderFor(message)[|TextPrefix|..] == message;
  }

  /** The file header parses back to the same name and size when the name has no ':'. */
  lemma FileHeaderRoundTrip(fileName: string, fileSize: nat)
    requires ':' !in fileName
    requires fileSize <= LongMax
    ensures Dispatch(FileHeaderFor(fileName, fileSize)) == FileAnnouncement(fileName, fileSize)
  {
    var h := FileHeaderFor(fileName, fileSize);
    var digits := Decimal(fileSize);
    DecimalDigits(fileSize);
    ParseDecimal(fileSize);
    assert h[..|FilePrefix|] == FilePrefix;
    assert h[0] == 'F';
    assert !StartsWith(h, TextPrefix) by { assert h[0] != TextPrefix[0]; }
    assert ':' !in digits by {
      forall i | 0 <= i < |digits| ensures digits[i] != ':' { assert IsDigit(digits[i]); }
    }
    assert h == "File" + [':'] + (fileName + [':'] + digits);
    SplitAfter("File", ':', fileName + [':'] + digits);
    SplitAfter(fileName, ':', digits);
    SplitWithoutSeparator(digits, ':');
    assert Split(h, ':') == ["File", fileName, digits];
  }

  /** A ':' inside the name shifts the fields: the part before it is taken as the
      name and the part after it as the size, so the real size is ignored. */
  lemma ColonInNameShiftsFields(first: string, second: string, fileSize: nat)
    requires ':' !in first && ':' !in second
    ensures Dispatch(FileHeaderFor(first + ":" + second, fileSize)) ==
      match ParseLong(second)
      case None => Rejected(BadSize)
      case Some(v) => FileAnnouncement(first, v)
  {
    var h := FileHeaderFor(first + ":" + second, fileSize);
    var digits := Decimal(fileSize);
    assert h[..|FilePrefix|] == FilePrefix;
    assert !StartsWith(h, TextPrefix) by { assert h[0] != TextPrefix[0]; }
    assert h == "File" + [':'] + (first + [':'] + (second + [':'] + digits));
    SplitAfter("File", ':', first + [':'] + (second + [':'] + digits));
    SplitAfter(first, ':', second + [':'] + digits);
    SplitAfter(second, ':', digits);
    assert Split(h, ':')[1] == first && Split(h, ':')[2] == second;
  }

  /** A concrete instance: a file named "a:7" of 3 bytes is announced as "a" of 7 bytes. */
  lemma ColonInNameExample()
    ensures Dispatch(FileHeaderFor("a:7", 3)) == FileAnnouncement("a", 7)
  {
    assert AllDigits("7");
    assert DigitsValue("7") == 7 by { assert "7"[..0] == ""; }
    assert ParseLong("7") == Some(7);
    assert "a:7" == "a" + ":" + "7";
    ColonInNameShiftsFields("a", "7", 3);
  }

  /** The text prefix is tested first: a header is an incoming text exactly when
      it starts with that prefix, and the text is then what follows the prefix.
      Only headers that start with the file prefix (and not the text prefix)
      announce a file, with a size in Long's range; every other header is
      skipped as unknown. */
  lemma DispatchOrder(header: string)
    ensures Dispatch(header).IncomingText? <==> StartsWith(header, TextPrefix)
    ensures Dispatch(header).IncomingText? ==> TextHeaderFor(Dispatch(header).text) == header
    ensures Dispatch(header).FileAnnouncement? ==>
      && StartsWith(header, FilePrefix) && !StartsWith(header, TextPrefix)
      && LongMin <= Dispatch(header).fileSize <= LongMax
    ensures Dispatch(header) == Rejected(UnknownType) <==>
      !StartsWith(header, TextPrefix) && !StartsWith(header, FilePrefix)
  {
  }

  /** A file header is rejected exactly when it has fewer than three parts or its
      third part is not a Long; a file announcement never carries a ':' in its name. */
  lemma {:induction false} FileHeaderRejection(header: string)
    requires StartsWith(header, FilePrefix)
    ensures Dispatch(header) == Rejected(TooFewParts) <==> |Split(header, ':')| < 3
    ensures Dispatch(header) == Rejected(BadSize) <==>
      |Split(header, ':')| >= 3 && ParseLong(Split(header, ':')[2]).None?
    ensures Dispatch(header).FileAnnouncement? ==> ':' !in Dispatch(header).fileName
  {
    assert !StartsWith(header, TextPrefix) by { assert header[0] == 'F'; }
    SplitJoin(header, ':');
  }
}
