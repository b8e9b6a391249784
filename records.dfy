/**
 * The records file (`Records.txt`): line 0 holds the best endless score,
 * every later line a completed level id. `LoadRecords` reads it leniently,
 * `SaveRecords` writes the same layout. The file system is not modelled:
 * a load receives the file's lines (None when the file is missing or cannot
 * be read), a save returns the lines it would write.
 */
module RecordStore {
  import opened Wrappers

  /** What the records file persists. */
  datatype Records = Records(endlessRecord: int, completedLevels: set<int>)

  /** The values the game starts from before anything is loaded. */
  const Default := Records(0, {})

  // ---------------------------------------------------------------------
  // Decimal integers: `int.ToString()` and `int.TryParse`
  // ---------------------------------------------------------------------

  predicate IsDigit(c: char)
  {
    '0' <= c <= '9'
  }

  predicate AllDigits(s: string)
  {
    forall i | 0 <= i < |s| :: IsDigit(s[i])
  }

  function DigitChar(d: nat): (c: char)
    requires d < 10
    ensures IsDigit(c)
  {
    ('0' as int + d) as char
  }

  function DigitValue(c: char): (d: nat)
    requires IsDigit(c)
    ensures d < 10
  {
    c as int - '0' as int
  }

  /** The value of a string of decimal digits, most significant first. */
  function DigitsValue(s: string): nat
    requires AllDigits(s)
  {
    if |s| == 0 then 0 else DigitsValue(s[..|s| - 1]) * 10 + DigitValue(s[|s| - 1])
  }

  /** Decimal digits of `n`, without leading zeros. */
  function NatToString(n: nat): (s: string)
    ensures 0 < |s| && AllDigits(s)
  {
    if n < 10 then [DigitChar(n)] else NatToString(n / 10) + [DigitChar(n % 10)]
  }

  /** `n.ToString()` in the invariant culture. */
  function IntToString(n: int): string
  {
    if n < 0 then "-" + NatToString(-n) else NatToString(n)
  }

  /**
   * `int.TryParse` restricted to its core syntax: an optional sign followed
   * by one or more decimal digits. Anything else fails.
   */
  function TryParseInt(s: string): Option<int>
  {
    if 0 < |s| && (s[0] == '-' || s[0] == '+') then
      var digits := s[1..];
      if 0 < |digits| && AllDigits(digits) then
        var magnitude: int := DigitsValue(digits);
        Some(if s[0] == '-' then -magnitude else magnitude)
      else None
    else if 0 < |s| && AllDigits(s) then Some(DigitsValue(s))
    else None
  }

  lemma {:induction false} NatToStringValue(n: nat)
    ensures DigitsValue(NatToString(n)) == n
  {
    var s := NatToString(n);
    if n >= 10 {
      NatToStringValue(n / 10);
      assert s[..|s| - 1] == NatToString(n / 10);
    }
  }

  /** Parsing a printed integer gives it back. */
  lemma ParsePrintRoundTrip(n: int)
    ensures TryParseInt(IntToString(n)) == Some(n)
  {
    if n < 0 {
      NatToStringValue(-n);
      assert IntToString(n)[1..] == NatToString(-n);
    } else {
      NatToStringValue(n);
    }
  }

  /** Distinct integers print as distinct lines. */
  lemma PrintInjective(a: int, b: int)
    requires IntToString(a) == IntToString(b)
    ensures a == b
  {
    ParsePrintRoundTrip(a);
    ParsePrintRoundTrip(b);
  }

  // ---------------------------------------------------------------------
  // Loading
  // ---------------------------------------------------------------------

  /** The level ids of the lines that parse, in a set. */
  function ParsedLevels(lines: seq<string>): set<int>
  {
    if |lines| == 0 then {}
    else
      var last := TryParseInt(lines[|lines| - 1]);
      ParsedLevels(lines[..|lines| - 1]) + (if last.Some? then {last.value} else {})
  }

  /** What `LoadRecords` leaves in the two record fields, starting from the defaults. */
  function Load(file: Option<seq<string>>): Records
  {
    match file
    case None => Default
    case Some(lines) =>
      if |lines| == 0 then Default
      else
        var first := TryParseInt(lines[0]);
        Records(if first.Some? then first.value else Default.endlessRecord, ParsedLevels(lines[1..]))
  }

  /** `LoadRecords`: reads the record from line 0, then adds every parsable later line as a level. */
  method LoadRecords(file: Option<seq<string>>) returns (r: Records)
    ensures r == Load(file)
  {
    r := Default;
    if file.Some? {
      var lines := file.value;
      if 0 < |lines| {
        var endlessRecord := r.endlessRecord;
        var first := TryParseInt(lines[0]);
        if first.Some? {
          endlessRecord := first.value;
        }
        var completedLevels := r.completedLevels;
        for i := 1 to |lines|
          invariant completedLevels == ParsedLevels(lines[1..i])
        {
          assert lines[1..i + 1][..i - 1] == lines[1..i];
          var level := TryParseInt(lines[i]);
          if level.Some? {
            completedLevels := completedLevels + {level.value};
          }
        }
        assert lines[1..|lines|] == lines[1..];
        r := Records(endlessRecord, completedLevels);
      }
    }
  }

  /** A level is loaded exactly when some line holding it parses. */
  lemma {:induction false} ParsedLevelsExactly(lines: seq<string>, level: int)
    ensures level in ParsedLevels(lines) <==>
      exists i | 0 <= i < |lines| :: TryParseInt(lines[i]) == Some(level)
  {
    if |lines| > 0 {
      var front := lines[..|lines| - 1];
      ParsedLevelsExactly(front, level);
      if level in ParsedLevels(front) {
        var i :| 0 <= i < |front| && TryParseInt(front[i]) == Some(level);
        assert TryParseInt(lines[i]) == Some(level);
      }
      if exists i | 0 <= i < |lines| :: TryParseInt(lines[i]) == Some(level) {
        var i :| 0 <= i < |lines| && TryParseInt(lines[i]) == Some(level);
        if i < |front| {
          assert TryParseInt(front[i]) == Some(level);
        }
      }
    }
  }

  /**
   * Loading never fails: a missing or empty file gives the defaults, an
   * unparsable line 0 leaves the record at 0, and of lines 1..N exactly the
   * parsable ones become completed levels.
   */
  lemma LoadIsTotal(file: Option<seq<string>>)
    ensures file.None? || |file.value| == 0 ==> Load(file) == Default
    ensures file.Some? && 0 < |file.value| && TryParseInt(file.value[0]).None? ==>
      Load(file).endlessRecord == 0
    ensures file.Some? && 0 < |file.value| && TryParseInt(file.value[0]).Some? ==>
      Load(file).endlessRecord == TryParseInt(file.value[0]).value
    ensures forall level :: level in Load(file).completedLevels <==>
      file.Some? && exists i | 1 <= i < |file.value| :: TryParseInt(file.value[i]) == Some(level)
  {
    forall level ensures level in Load(file).completedLevels <==>
      file.Some? && exists i | 1 <= i < |file.value| :: TryParseInt(file.value[i]) == Some(level)
    {
      if file.Some? && 0 < |file.value| {
        var lines := file.value;
        ParsedLevelsExactly(lines[1..], level);
        if exists i | 1 <= i < |lines| :: TryParseInt(lines[i]) == Some(level) {
          var i :| 1 <= i < |lines| && TryParseInt(lines[i]) == Some(level);
          assert TryParseInt(lines[1..][i - 1]) == Some(level);
        }
        if level in Load(file).completedLevels {
          var i :| 0 <= i < |lines[1..]| && TryParseInt(lines[1..][i]) == Some(level);
          assert TryParseInt(lines[i + 1]) == Some(level);
        }
      }
    }
  }

  // ---------------------------------------------------------------------
  // Saving
  // ---------------------------------------------------------------------

  /** The lines written for a record and the levels in the order the set enumerated them. */
  function SaveLines(endlessRecord: int, order: seq<int>): (lines: seq<string>)
  {
    [IntToString(endlessRecord)] + seq(|order|, i requires 0 <= i < |order| => IntToString(order[i]))
  }

  lemma {:induction false} LevelLinesParse(order: seq<int>)
    ensures forall level :: level in ParsedLevels(SaveLines(0, order)[1..]) <==> level in order
  {
    var lines := SaveLines(0, order)[1..];
    assert |lines| == |order|;
    if |order| > 0 {
      var front := order[..|order| - 1];
      LevelLinesParse(front);
      assert SaveLines(0, front)[1..] == lines[..|lines| - 1];
      ParsePrintRoundTrip(order[|order| - 1]);
    }
  }

  /**
   * Loading what was saved gives back the record and the level set, whatever
   * order the levels were written in and however often each was written.
   */
  lemma LoadSaveRoundTrip(r: Records, order: seq<int>)
    requires forall level :: level in r.completedLevels <==> level in order
    ensures Load(Some(SaveLines(r.endlessRecord, order))) == r
  {
    var lines := SaveLines(r.endlessRecord, order);
    ParsePrintRoundTrip(r.endlessRecord);
    LevelLinesParse(order);
    assert lines[1..] == SaveLines(0, order)[1..];
    forall level ensures level in ParsedLevels(lines[1..]) <==> level in r.completedLevels {
    }
  }

  lemma HasMember(levels: set<int>)
    requires levels != {}
    ensures exists level :: level in levels
  {
    if forall level :: level !in levels {
      assert false;
    }
  }

  /**
   * `SaveRecords`: the record on the first line, then one line per
   * completed level in the set's enumeration order.
   */
  method SaveRecords(r: Records) returns (lines: seq<string>)
    ensures |lines| == |r.completedLevels| + 1
    ensures lines[0] == IntToString(r.endlessRecord)
    ensures exists order: seq<int> ::
              && lines == SaveLines(r.endlessRecord, order)
              && |order| == |r.completedLevels|
              && (forall level :: level in r.completedLevels <==> level in order)
    ensures Load(Some(lines)) == r
  {
    lines := [IntToString(r.endlessRecord)];
    ghost var order: seq<int> := [];
    var rest := r.completedLevels;
    while rest != {}
      invariant lines == SaveLines(r.endlessRecord, order)
      invariant forall level :: level in r.completedLevels <==> level in rest || level in order
      invariant |order| + |rest| == |r.completedLevels|
      decreases |rest|
    {
      HasMember(rest);
      var next :| next in rest;
      lines := lines + [IntToString(next)];
      order := order + [next];
      rest := rest - {next};
    }
    LoadSaveRoundTrip(r, order);
    assert lines == SaveLines(r.endlessRecord, order);
  }

  /** After a reset the saved file loads as the defaults. */
  lemma ResetThenLoad()
    ensures Load(Some(SaveLines(0, []))) == Default
  {
    LoadSaveRoundTrip(Default, []);
  }
}
