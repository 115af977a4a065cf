/** `ReservationAnalyzer.parseReservations`: which input lines become
    reservations, which are skipped silently and which are reported as
    invalid. The field parsers (`Integer.parseInt`, `Double.parseDouble`,
    `LocalDate.parse` with pattern yyyy-MM-dd) are abstract partial
    functions: `None` stands for the exception they throw. */
module Parsing {
  import opened Wrappers
  import opened JavaInt
  import opened Reservations

  /** `String.trim` treats every char up to U+0020 as space. */
  predicate IsSpace(c: char) {
    c <= ' '
  }

  /** `s` without its leading spaces. */
  function TrimStart(s: string): string {
    if s != [] && IsSpace(s[0]) then TrimStart(s[1..]) else s
  }

  /** `s` without its trailing spaces. */
  function TrimEnd(s: string): string {
    if s != [] && IsSpace(s[|s| - 1]) then TrimEnd(s[..|s| - 1]) else s
  }

  /** `String.trim`. */
  function Trim(s: string): string {
    TrimEnd(TrimStart(s))
  }

  /** `TrimStart` removes a prefix of spaces and nothing after it. */
  lemma {:induction false} TrimStartSpec(s: string)
    ensures var t := TrimStart(s);
            && |t| <= |s| && t == s[|s| - |t|..]
            && (forall k | 0 <= k < |s| - |t| :: IsSpace(s[k]))
            && (t != [] ==> !IsSpace(t[0]))
  {
    if s != [] && IsSpace(s[0]) {
      TrimStartSpec(s[1..]);
      var t := TrimStart(s);
      forall k | 1 <= k < |s| - |t| ensures IsSpace(s[k]) {
        assert s[k] == s[1..][k - 1];
      }
    }
  }

  /** `TrimEnd` removes a suffix of spaces and nothing before it. */
  lemma {:induction false} TrimEndSpec(s: string)
    ensures var t := TrimEnd(s);
            && |t| <= |s| && t == s[..|t|]
            && (forall k | |t| <= k < |s| :: IsSpace(s[k]))
            && (t != [] ==> !IsSpace(t[|t| - 1]))
  {
    if s != [] && IsSpace(s[|s| - 1]) {
      TrimEndSpec(s[..|s| - 1]);
    }
  }

  /** A trimmed string is a middle part of the string with only spaces
      around it; it is empty exactly when the whole string is spaces, and
      otherwise neither starts nor ends with a space. */
  lemma TrimSpec(s: string)
    ensures exists i, j :: 0 <= i <= j <= |s| && Trim(s) == s[i..j] &&
              (forall k | 0 <= k < i :: IsSpace(s[k])) && (forall k | j <= k < |s| :: IsSpace(s[k]))
    ensures Trim(s) == [] <==> forall k | 0 <= k < |s| :: IsSpace(s[k])
    ensures Trim(s) != [] ==> !IsSpace(Trim(s)[0]) && !IsSpace(Trim(s)[|Trim(s)| - 1])
  {
    var u := TrimStart(s);
    TrimStartSpec(s);
    TrimEndSpec(u);
    var i := |s| - |u|;
    var j := i + |Trim(s)|;
    assert Trim(s) == s[i..j];
    forall k | j <= k < |s| ensures IsSpace(s[k]) {
      assert s[k] == u[k - i];
    }
    if Trim(s) == [] && u != [] {
      assert false;
    }
    if Trim(s) != [] {
      assert Trim(s)[0] == u[0];
    }
  }

  /** Fields of `s` between separators, all of them, empty ones included:
      the split that `String.split` starts from. */
  function SplitAll(s: string, sep: char): (parts: seq<string>)
    ensures |parts| >= 1
  {
    if s == [] then [""]
    else
      var rest := SplitAll(s[1..], sep);
      if s[0] == sep then [""] + rest else [[s[0]] + rest[0]] + rest[1..]
  }

  /** The fields put back together with the separator between them. */
  function Join(parts: seq<string>, sep: char): string
    requires |parts| >= 1
  {
    if |parts| == 1 then parts[0] else parts[0] + [sep] + Join(parts[1..], sep)
  }

  lemma JoinCons(c: char, parts: seq<string>, sep: char)
    requires |parts| >= 1
    ensures Join([[c] + parts[0]] + parts[1..], sep) == [c] + Join(parts, sep)
  {
    var joined := [[c] + parts[0]] + parts[1..];
    if |parts| > 1 {
      assert joined[1..] == parts[1..];
    }
  }

  /** Joining the fields gives back the string split. */
  lemma {:induction false} JoinSplit(s: string, sep: char)
    ensures Join(SplitAll(s, sep), sep) == s
  {
    if s != [] {
      var rest := SplitAll(s[1..], sep);
      JoinSplit(s[1..], sep);
      if s[0] == sep {
        assert ([""] + rest)[1..] == rest;
      } else {
        JoinCons(s[0], rest, sep);
      }
    }
  }

  /** Splitting a join of separator-free fields gives back the fields. */
  lemma {:induction false} SplitJoin(parts: seq<string>, sep: char)
    requires |parts| >= 1
    requires forall p <- parts :: sep !in p
    ensures SplitAll(Join(parts, sep), sep) == parts
    decreases |Join(parts, sep)|
  {
    var s := Join(parts, sep);
    if parts[0] == [] {
      if |parts| > 1 {
        assert s == [sep] + Join(parts[1..], sep);
        assert s[1..] == Join(parts[1..], sep);
        SplitJoin(parts[1..], sep);
      }
    } else {
      var c, shorter := parts[0][0], [parts[0][1..]] + parts[1..];
      assert parts[0] == [c] + parts[0][1..];
      assert shorter[1..] == parts[1..];
      assert parts == [[c] + shorter[0]] + shorter[1..];
      assert parts[0] in parts;
      assert c != sep;
      assert forall p <- shorter :: sep !in p by {
        assert sep !in parts[0][1..];
        assert forall p <- parts[1..] :: p in parts;
      }
      JoinCons(c, shorter, sep);
      assert s[1..] == Join(shorter, sep);
      SplitJoin(shorter, sep);
    }
  }

  /** `ps` without its trailing empty strings. */
  function DropTrailingEmpty(ps: seq<string>): seq<string> {
    if ps != [] && ps[|ps| - 1] == "" then DropTrailingEmpty(ps[..|ps| - 1]) else ps
  }

  /** What `DropTrailingEmpty` removes is exactly the run of empty strings
      at the end. */
  lemma {:induction false} DropTrailingEmptySpec(ps: seq<string>)
    ensures var r := DropTrailingEmpty(ps);
            && |r| <= |ps| && r == ps[..|r|]
            && (forall k | |r| <= k < |ps| :: ps[k] == "")
            && (r != [] ==> r[|r| - 1] != "")
  {
    if ps != [] && ps[|ps| - 1] == "" {
      DropTrailingEmptySpec(ps[..|ps| - 1]);
    }
  }

  /** No field of a split holds the separator. */
  lemma {:induction false} SplitFieldsSeparatorFree(s: string, sep: char)
    ensures forall p <- SplitAll(s, sep) :: sep !in p
  {
    if s != [] {
      SplitFieldsSeparatorFree(s[1..], sep);
    }
  }

  /** `s.split(String.valueOf(sep))`: the whole string when the separator
      does not occur, otherwise the fields with the trailing empty ones
      removed (so `",,"` gives no field at all). */
  function JavaSplit(s: string, sep: char): seq<string> {
    if sep !in s then [s] else DropTrailingEmpty(SplitAll(s, sep))
  }

  /** `String.split` undoes a join of separator-free fields when at least
      two fields are joined and the last one is not empty. */
  lemma JavaSplitJoin(parts: seq<string>, sep: char)
    requires 2 <= |parts| && parts[|parts| - 1] != ""
    requires forall p <- parts :: sep !in p
    ensures JavaSplit(Join(parts, sep), sep) == parts
  {
    var s := Join(parts, sep);
    SplitJoin(parts, sep);
    assert s[|parts[0]|] == sep;
  }

  /** The abstract field parsers; `None` is a thrown exception. A parsed
      date is delivered as its day number (`Calendar.DayNumber`), which loses
      nothing: every integer is the day number of exactly one date. */
  datatype FieldParsers = FieldParsers(
    parseInt: string -> Option<Int32>,
    parseDouble: string -> Option<real>,
    parseDate: string -> Option<int>)

  /** What becomes of one input line. */
  datatype LineOutcome =
    | Ignored                          // skipped without a message
    | Invalid                          // skipped with "Skipping invalid line"
    | Parsed(reservation: Reservation)

  predicate IsBlank(line: string) {
    Trim(line) == ""
  }

  predicate IsHeader(line: string) {
    "Capacity" <= line
  }

  /** The optional fourth field: `Some(None)` when it is missing or blank,
      `Some(Some(d))` when it parses to day `d`, `None` when it does not
      parse. */
  function EndField(parts: seq<string>, parsers: FieldParsers): Option<Option<int>> {
    if |parts| > 3 && Trim(parts[3]) != "" then
      match parsers.parseDate(Trim(parts[3]))
      case Some(d) => Some(Some(d))
      case None => None
    else Some(None)
  }

  /** The fate of one line under the loop body of `parseReservations`. */
  function Classify(line: string, parsers: FieldParsers): LineOutcome {
    if IsBlank(line) || IsHeader(line) then Ignored
    else
      var parts := JavaSplit(line, ',');
      if |parts| < 3 then Ignored
      else
        var capacity := parsers.parseInt(Trim(parts[0]));
        var price := parsers.parseDouble(Trim(parts[1]));
        var start := parsers.parseDate(Trim(parts[2]));
        var end := EndField(parts, parsers);
        if capacity.None? || price.None? || start.None? || end.None? then Invalid
        else Parsed(Reservation(capacity.value, price.value, start.value, end.value))
  }

  /** The reservations read from `lines`, in line order. */
  function Accepted(lines: seq<string>, parsers: FieldParsers): seq<Reservation> {
    if lines == [] then []
    else
      var outcome := Classify(lines[|lines| - 1], parsers);
      Accepted(lines[..|lines| - 1], parsers) + (if outcome.Parsed? then [outcome.reservation] else [])
  }

  /** The lines reported as invalid, in line order. */
  function Rejected(lines: seq<string>, parsers: FieldParsers): seq<string> {
    if lines == [] then []
    else
      var last := lines[|lines| - 1];
      Rejected(lines[..|lines| - 1], parsers) + (if Classify(last, parsers).Invalid? then [last] else [])
  }

  /** A line is skipped silently exactly when it is blank, starts with
      "Capacity", or splits into fewer than three fields. */
  lemma IgnoredIff(line: string, parsers: FieldParsers)
    ensures Classify(line, parsers) == Ignored <==>
              IsBlank(line) || IsHeader(line) || |JavaSplit(line, ',')| < 3
  {
  }

  /** A line that is not skipped silently is reported as invalid exactly
      when one of its fields does not parse; otherwise it becomes a
      reservation built from its trimmed fields, with no end date exactly
      when the fourth field is missing or blank. Fields after the fourth
      are never looked at. */
  lemma ParsedFields(line: string, parsers: FieldParsers)
    requires Classify(line, parsers) != Ignored
    ensures var parts := JavaSplit(line, ',');
            |parts| >= 3 &&
            (Classify(line, parsers) == Invalid <==>
               parsers.parseInt(Trim(parts[0])).None? || parsers.parseDouble(Trim(parts[1])).None? ||
               parsers.parseDate(Trim(parts[2])).None? ||
               (|parts| > 3 && Trim(parts[3]) != "" && parsers.parseDate(Trim(parts[3])).None?))
    ensures var parts := JavaSplit(line, ',');
            Classify(line, parsers).Parsed? ==>
              var r := Classify(line, parsers).reservation;
              && r.capacity == parsers.parseInt(Trim(parts[0])).value
              && r.price == parsers.parseDouble(Trim(parts[1])).value
              && r.start == parsers.parseDate(Trim(parts[2])).value
              && (r.end.None? <==> |parts| == 3 || Trim(parts[3]) == "")
              && (r.end.Some? ==> r.end.value == parsers.parseDate(Trim(parts[3])).value)
  {
  }

  /** Parsing two blocks of lines one after the other gives the two results
      one after the other: lines are handled independently and in order. */
  lemma {:induction false} AcceptedConcat(a: seq<string>, b: seq<string>, parsers: FieldParsers)
    ensures Accepted(a + b, parsers) == Accepted(a, parsers) + Accepted(b, parsers)
    decreases |b|
  {
    if b == [] {
      assert a + b == a;
    } else {
      var init, last := b[..|b| - 1], b[|b| - 1];
      assert b == init + [last];
      assert a + b == (a + init) + [last];
      AcceptedConcat(a, init, parsers);
      SnocStep(a + init, last, parsers);
      SnocStep(init, last, parsers);
    }
  }

  /** The same for the lines reported as invalid. */
  lemma {:induction false} RejectedConcat(a: seq<string>, b: seq<string>, parsers: FieldParsers)
    ensures Rejected(a + b, parsers) == Rejected(a, parsers) + Rejected(b, parsers)
    decreases |b|
  {
    if b == [] {
      assert a + b == a;
    } else {
      var init, last := b[..|b| - 1], b[|b| - 1];
      assert b == init + [last];
      assert a + b == (a + init) + [last];
      RejectedConcat(a, init, parsers);
      SnocStep(a + init, last, parsers);
      SnocStep(init, last, parsers);
    }
  }

  /** How one more line at the end changes the two results. */
  lemma SnocStep(lines: seq<string>, line: string, parsers: FieldParsers)
    ensures var outcome := Classify(line, parsers);
            && Accepted(lines + [line], parsers) ==
                 Accepted(lines, parsers) + (if outcome.Parsed? then [outcome.reservation] else [])
            && Rejected(lines + [line], parsers) ==
                 Rejected(lines, parsers) + (if outcome.Invalid? then [line] else [])
  {
    var all := lines + [line];
    assert all[..|all| - 1] == lines && all[|all| - 1] == line;
  }

  /** Each line yields at most one reservation or one message, never both. */
  lemma {:induction false} ParseCount(lines: seq<string>, parsers: FieldParsers)
    ensures |Accepted(lines, parsers)| + |Rejected(lines, parsers)| <= |lines|
  {
    if lines != [] {
      ParseCount(lines[..|lines| - 1], parsers);
    }
  }

  /** Every reservation read comes from a line of the input. */
  lemma {:induction false} AcceptedFromLines(lines: seq<string>, parsers: FieldParsers)
    ensures forall r <- Accepted(lines, parsers) :: exists line <- lines :: Classify(line, parsers) == Parsed(r)
  {
    if lines != [] {
      var init := lines[..|lines| - 1];
      AcceptedFromLines(init, parsers);
      assert forall line <- init :: line in lines;
    }
  }

  /** The header line of the input file is skipped silently. */
  lemma HeaderLineIgnored(parsers: FieldParsers)
    ensures Classify("Capacity,Price,Start,End", parsers) == Ignored
  {
    assert IsHeader("Capacity,Price,Start,End");
  }

  /** A line with exactly one comma, so two fields, is skipped silently,
      whatever its fields hold. */
  lemma TwoFieldLineIgnored(parts: seq<string>, parsers: FieldParsers)
    requires |parts| == 2 && forall p <- parts :: ',' !in p
    ensures Classify(Join(parts, ','), parsers) == Ignored
  {
    var line := Join(parts, ',');
    assert line[|parts[0]|] == ',';
    SplitJoin(parts, ',');
    DropTrailingEmptySpec(parts);
  }

  /** A line that is neither blank nor a header and splits into three or
      more fields, whose capacity field does not parse, is reported as
      invalid (as "abc,xyz,2013-01-01" and "abc,xyz,2013-01-01,," are). */
  lemma UnparsableCapacityRejected(line: string, parsers: FieldParsers)
    requires !IsBlank(line) && !IsHeader(line)
    requires |JavaSplit(line, ',')| >= 3
    requires parsers.parseInt(Trim(JavaSplit(line, ',')[0])).None?
    ensures Classify(line, parsers) == Invalid
  {
  }

  /** How one more line changes the two results. */
  lemma ParseStep(lines: seq<string>, i: int, parsers: FieldParsers)
    requires 0 <= i < |lines|
    ensures var outcome := Classify(lines[i], parsers);
            && Accepted(lines[..i + 1], parsers) ==
                 (if outcome.Parsed? then Accepted(lines[..i], parsers) + [outcome.reservation] else Accepted(lines[..i], parsers))
            && Rejected(lines[..i + 1], parsers) ==
                 (if outcome.Invalid? then Rejected(lines[..i], parsers) + [lines[i]] else Rejected(lines[..i], parsers))
  {
    assert lines[..i + 1][..i] == lines[..i];
  }

  /** `parseReservations`, with the lines it reports as invalid returned
      instead of printed. */
  method ParseReservations(lines: seq<string>, parsers: FieldParsers)
    returns (reservations: seq<Reservation>, rejected: seq<string>)
    ensures reservations == Accepted(lines, parsers)
    ensures rejected == Rejected(lines, parsers)
  {
    reservations, rejected := [], [];
    for i := 0 to |lines|
      invariant reservations == Accepted(lines[..i], parsers)
      invariant rejected == Rejected(lines[..i], parsers)
    {
      var line := lines[i];
      ghost var outcome := Classify(line, parsers);
      ParseStep(lines, i, parsers);
      if Trim(line) == "" || "Capacity" <= line {
        assert outcome == Ignored;
        continue;
      }
      var parts := JavaSplit(line, ',');
      if |parts| < 3 {
        assert outcome == Ignored;
        continue;
      }
      var capacity := parsers.parseInt(Trim(parts[0]));
      var price := parsers.parseDouble(Trim(parts[1]));
      var start := parsers.parseDate(Trim(parts[2]));
      var end: Option<int> := None;
      var endParsed := true;
      if |parts| > 3 && Trim(parts[3]) != "" {
        var parsedEnd := parsers.parseDate(Trim(parts[3]));
        if parsedEnd.Some? {
          end := Some(parsedEnd.value);
        } else {
          endParsed := false;
        }
      }
      assert EndField(parts, parsers) == if endParsed then Some(end) else None;
      if capacity.None? || price.None? || start.None? || !endParsed {
        assert outcome == Invalid;
        rejected := rejected + [line];
        continue;
      }
      var r := Reservation(capacity.value, price.value, start.value, end);
      assert outcome == Parsed(r);
      reservations := reservations + [r];
    }
    assert lines[..|lines|] == lines;
  }
}
