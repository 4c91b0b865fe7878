/** Which file names of the log directory are log names, and which of them carry a date
    (src/config/FileLogWriter.ts:56-65): the patterns written out, and shown to be what the
    regular expression and `Date.parse` accept. */
module LogDates {
  import opened Text
  import opened LogNames

  /** Starts with "app-" and ends with ".log". */
  ghost predicate IsLogName(name: string) {
    exists middle: string :: name == "app-" + middle + ".log"
  }

  /** What may follow the date. */
  ghost predicate IsTail(tail: string) {
    tail == ".log" || exists digits: string :: digits != "" && AllDigits(digits) && tail == "-" + digits + ".log"
  }

  /** The name carries this date; the day is not compared with the length of the month, and 31 February
      is the second or third of March. */
  ghost predicate HasDate(name: string, d: Date, tail: string) {
    && d.year < 10000 && 1 <= d.month <= 12 && 1 <= d.day <= 31 && IsTail(tail)
    && name == "app-" + (Padded(d.year, 4) + "-" + Padded(d.month, 2) + "-" + Padded(d.day, 2)) + tail
  }

  /** Days and readings of the clock that are known from elsewhere. */
  lemma KnownDays()
    ensures Midnight(DayNumber(Date(1970, 1, 1))) == 0
    ensures Midnight(DayNumber(Date(2000, 3, 1))) == 951868800000
    ensures Midnight(DayNumber(Date(2024, 6, 30))) == 1719705600000
    ensures DayOf(0) == DayNumber(Date(1970, 1, 1))
  {
  }

  lemma LogNameExactlyWhen(name: string)
    ensures IsAppLogFile(name) <==> IsLogName(name)
  {
    if IsAppLogFile(name) {
      var n := |name|;
      assert name[..4] == "app-" && name[n - 4..] == ".log";
      LongEnough(name);
      assert name == "app-" + name[4..n - 4] + ".log";
    }
    if IsLogName(name) {
      var middle: string :| name == "app-" + middle + ".log";
      assert name[..4] == "app-" && name[|name| - 4..] == ".log";
    }
  }

  lemma LongEnough(name: string)
    requires IsAppLogFile(name)
    ensures |name| >= 8
  {
    var n := |name|;
    assert name[..4][0] == 'a' && name[..4][1] == 'p' && name[..4][2] == 'p' && name[..4][3] == '-';
    assert name[n - 4..][0] == '.' && name[n - 4..][1] == 'l' && name[n - 4..][2] == 'o' && name[n - 4..][3] == 'g';
    assert name[0] == 'a' && name[1] == 'p' && name[2] == 'p' && name[3] == '-';
    assert name[n - 4] == '.' && name[n - 3] == 'l' && name[n - 2] == 'o' && name[n - 1] == 'g';
  }

  // ---------- Numerals of fixed width ----------

  lemma {:induction false} PaddedOfValue(s: string)
    requires AllDigits(s)
    ensures Padded(ValueOf(s), |s|) == s && ValueOf(s) < Pow10(|s|)
  {
    if s != "" {
      var front, last := s[..|s| - 1], s[|s| - 1];
      PaddedOfValue(front);
      assert s == front + [last];
    }
  }

  lemma TailExactlyWhen(tail: string)
    ensures IsNameTail(tail) <==> IsTail(tail)
  {
    if IsNameTail(tail) && tail != ".log" {
      var n := |tail|;
      var digits := tail[1..n - 4];
      assert tail[n - 4..] == ".log";
      assert tail == "-" + digits + ".log";
    }
    if IsTail(tail) && tail != ".log" {
      var digits: string :| digits != "" && AllDigits(digits) && tail == "-" + digits + ".log";
      assert tail[|tail| - 4..] == ".log" && tail[1..|tail| - 4] == digits && tail[0] == '-';
    }
  }

  // ---------- Dates in names ----------

  lemma DateIsRead(name: string, d: Date, tail: string)
    requires HasDate(name, d, tail)
    ensures ParseDateFromLogFilename(name) == Some(Midnight(DayNumber(d))) && IsAppLogFile(name)
  {
    var text := DateText(d);
    assert text == Padded(d.year, 4) + "-" + Padded(d.month, 2) + "-" + Padded(d.day, 2);
    TextOfDate(d);
    TailExactlyWhen(tail);
    TailEnds(tail);
    hide IsTail, IsNameTail, DateText, Padded, IsDateText;
    SplitNameParses(text, tail);
  }

  lemma TailEnds(tail: string)
    requires IsNameTail(tail)
    ensures EndsWith(tail, ".log")
  {
  }

  lemma TextOfDate(d: Date)
    requires d.year < 10000 && 1 <= d.month <= 12 && 1 <= d.day <= 31
    ensures IsDateText(DateText(d)) && ParseDate(DateText(d)) == Some(Midnight(DayNumber(d)))
  {
    var text := DateText(d);
    assert text[..4] == Padded(d.year, 4) && text[5..7] == Padded(d.month, 2) && text[8..] == Padded(d.day, 2);
    assert Pow10(2) == 100 && Pow10(4) == 10000;
    ReadPadded(d.year, 4);
    ReadPadded(d.month, 2);
    ReadPadded(d.day, 2);
  }

  lemma DateIsThere(name: string)
    requires ParseDateFromLogFilename(name).Some?
    ensures exists d, tail :: HasDate(name, d, tail)
  {
    var text, tail := name[4..14], name[14..];
    var d := Date(ValueOf(text[..4]), ValueOf(text[5..7]), ValueOf(text[8..]));
    assert IsDateText(text) && 1 <= d.month <= 12 && 1 <= d.day <= 31;
    TailExactlyWhen(tail);
    DateTextOf(text);
    assert name == "app-" + text + tail by { assert name[..4] == "app-"; }
    hide IsTail, IsNameTail, IsDateText, Padded;
    assert HasDate(name, d, tail);
  }

  lemma DateTextOf(text: string)
    requires IsDateText(text)
    ensures ValueOf(text[..4]) < 10000
    ensures text == Padded(ValueOf(text[..4]), 4) + "-" + Padded(ValueOf(text[5..7]), 2) + "-"
                    + Padded(ValueOf(text[8..]), 2)
  {
    hide Padded, ValueOf, AreDigits;
    assert Pow10(4) == 10000;
    PaddedOfValue(text[..4]);
    PaddedOfValue(text[5..7]);
    PaddedOfValue(text[8..]);
    assert text == text[..4] + "-" + text[5..7] + "-" + text[8..];
  }

  /** A name yields a date if and only if it carries one, and then its midnight. */
  lemma DateParsesExactlyWhen(name: string)
    ensures ParseDateFromLogFilename(name).Some? <==> exists d, tail :: HasDate(name, d, tail)
    ensures forall d, tail :: HasDate(name, d, tail) ==>
      ParseDateFromLogFilename(name) == Some(Midnight(DayNumber(d)))
  {
    if ParseDateFromLogFilename(name).Some? { DateIsThere(name); }
    forall d, tail | HasDate(name, d, tail)
      ensures ParseDateFromLogFilename(name) == Some(Midnight(DayNumber(d)))
    {
      DateIsRead(name, d, tail);
    }
  }

  /** The names the writer makes carry the date of their day. */
  lemma WriterNamesHaveDates(n: LogName)
    requires n.day < EPOCH_DAY + CLOCK_END / DAY_MS
    ensures exists d, tail :: HasDate(NameOf(n), d, tail)
    ensures forall d, tail :: HasDate(NameOf(n), d, tail) ==> Midnight(DayNumber(d)) == Midnight(n.day)
  {
    NameParsesToItsDay(n);
    DateParsesExactlyWhen(NameOf(n));
    hide ParseDateFromLogFilename, HasDate, NameOf, IsAppLogFile;
  }
}
