/** The text form of a time-of-day preference: the static getters
    `getHour`/`getMinute`/`getSecond`, the string `onDialogClosed` persists,
    and the `HH:mm:ss` summary. */
module TimeCodec {
  import opened Results
  import opened Decimal
  import opened Splitting

  const Colon: char := ':'

  /** The three `int` fields the preference keeps (`lastHour`, `lastMinute`,
      `lastSecond`). Nothing restricts them to a clock range. */
  datatype Time = Time(hour: int, minute: int, second: int)

  predicate IsJavaTime(t: Time) {
    IsInt32(t.hour) && IsInt32(t.minute) && IsInt32(t.second)
  }

  /** A wall-clock time: hour 0..23, minute and second 0..59. */
  predicate InDay(t: Time) {
    0 <= t.hour < 24 && 0 <= t.minute < 60 && 0 <= t.second < 60
  }

  /** Why a getter throws: the field index is past the end of the split array
      (`ArrayIndexOutOfBoundsException`), or the field is not an `int`
      (`NumberFormatException`). */
  datatype DecodeError = MissingField(index: nat) | NotAnInt(index: nat)

  /** Split the text on ':' and parse field `index` as an `int`. */
  function Field(text: string, index: nat): (r: Result<int, DecodeError>)
    ensures r.Ok? ==> IsInt32(r.value)
    ensures r.Err? ==> r.error.index == index
  {
    var pieces := JavaSplit(text, Colon);
    if index < |pieces| then
      match ParseInt(pieces[index])
      case Some(v) => Ok(v)
      case None => Err(NotAnInt(index))
    else Err(MissingField(index))
  }

  /** `getHour`: field 0 of the text. */
  function GetHour(text: string): (r: Result<int, DecodeError>)
    ensures var p := Split(text, Colon);
      r.Ok? <==> ParseInt(p[0]).Some?
    ensures r.Ok? ==> r.value == ParseInt(Split(text, Colon)[0]).value
    ensures r.Err? ==> r.error.index == 0
  {
    FieldAgreesWithPlainSplit(text, 0);
    Field(text, 0)
  }

  /** `getMinute`: field 1 of the text. */
  function GetMinute(text: string): (r: Result<int, DecodeError>)
    ensures var p := Split(text, Colon);
      r.Ok? <==> |p| > 1 && ParseInt(p[1]).Some?
    ensures r.Ok? ==> r.value == ParseInt(Split(text, Colon)[1]).value
    ensures r.Err? ==> r.error.index == 1
  {
    FieldAgreesWithPlainSplit(text, 1);
    Field(text, 1)
  }

  /** `getSecond`: field 2 of the text. */
  function GetSecond(text: string): (r: Result<int, DecodeError>)
    ensures var p := Split(text, Colon);
      r.Ok? <==> |p| > 2 && ParseInt(p[2]).Some?
    ensures r.Ok? ==> r.value == ParseInt(Split(text, Colon)[2]).value
    ensures r.Err? ==> r.error.index == 2
  {
    FieldAgreesWithPlainSplit(text, 2);
    Field(text, 2)
  }

  /** The three getters applied in turn, the first one that throws deciding
      the error, as `onSetInitialValue` calls them. */
  function Decode(text: string): (r: Result<Time, DecodeError>)
    ensures r.Ok? <==> GetHour(text).Ok? && GetMinute(text).Ok? && GetSecond(text).Ok?
    ensures r.Ok? ==> IsJavaTime(r.value)
    ensures GetHour(text).Err? ==> r == Err(GetHour(text).error)
    ensures GetHour(text).Ok? && GetMinute(text).Err? ==> r == Err(GetMinute(text).error)
    ensures GetHour(text).Ok? && GetMinute(text).Ok? && GetSecond(text).Err? ==> r == Err(GetSecond(text).error)
  {
    match GetHour(text)
    case Err(e) => Err(e)
    case Ok(h) =>
      match GetMinute(text)
      case Err(e) => Err(e)
      case Ok(m) =>
        match GetSecond(text)
        case Err(e) => Err(e)
        case Ok(s) => Ok(Time(h, m, s))
  }

  /** Decoding yields the parsed first three fields of the plain split,
      whatever follows them. */
  lemma DecodeValue(text: string)
    ensures var r := Decode(text); var p := Split(text, Colon);
      r.Ok? ==> (|p| >= 3
        && r.value == Time(ParseInt(p[0]).value, ParseInt(p[1]).value, ParseInt(p[2]).value))
  {
    FieldAgreesWithPlainSplit(text, 0);
    FieldAgreesWithPlainSplit(text, 1);
    FieldAgreesWithPlainSplit(text, 2);
  }

  /** A field read through Java's split agrees with the same field of the
      plain split: dropping trailing empty fields changes only which
      exception a getter throws, never a value it returns. */
  lemma FieldAgreesWithPlainSplit(text: string, index: nat)
    ensures var p := Split(text, Colon);
      Field(text, index).Ok? <==> index < |p| && ParseInt(p[index]).Some?
    ensures var p := Split(text, Colon);
      Field(text, index).Ok? ==> Field(text, index).value == ParseInt(p[index]).value
  {
  }

  /** Each getter reads exactly one field of a colon-joined text: the one at
      its index. */
  lemma FieldOfJoin(fields: seq<string>, index: nat)
    requires |fields| >= 1 && SeparatorFree(fields, Colon)
    requires fields[|fields| - 1] != ""
    ensures var r := Field(Join(fields, Colon), index);
      if index >= |fields| then r == Err(MissingField(index))
      else if ParseInt(fields[index]).Some? then r == Ok(ParseInt(fields[index]).value)
      else r == Err(NotAnInt(index))
  {
    JavaSplitOfJoin(fields, Colon);
  }

  /** Decoding `a:b:c`, for three `int` texts, gives back the three values. */
  lemma DecodeThreeFields(a: string, b: string, c: string)
    requires ParseInt(a).Some? && ParseInt(b).Some? && ParseInt(c).Some?
    requires Colon !in a && Colon !in b && Colon !in c
    ensures Decode(a + [Colon] + b + [Colon] + c)
         == Ok(Time(ParseInt(a).value, ParseInt(b).value, ParseInt(c).value))
  {
    var fields := [a, b, c];
    assert Join(fields, Colon) == a + [Colon] + b + [Colon] + c by {
      assert Join(fields[2..], Colon) == c;
      assert Join(fields[1..], Colon) == b + [Colon] + c;
    }
    FieldOfJoin(fields, 0);
    FieldOfJoin(fields, 1);
    FieldOfJoin(fields, 2);
  }

  /** The string `onDialogClosed` persists, as written: the hour, a colon,
      then either a '0' and the one-character minute (with the seconds left
      out) or the minute, a colon and the seconds. */
  function EncodeText(t: Time): string {
    var minuteText := IntToString(t.minute);
    IntToString(t.hour) + [Colon]
      + (if |minuteText| == 1 then "0" + minuteText else minuteText + [Colon] + IntToString(t.second))
  }

  /** The fields of the persisted string: hour, minute and second, except that
      a minute in 0..9 is padded and the second is lost. */
  function Encode(t: Time): (r: string)
    ensures Split(r, Colon) ==
      if 0 <= t.minute < 10
      then [IntToString(t.hour), "0" + IntToString(t.minute)]
      else [IntToString(t.hour), IntToString(t.minute), IntToString(t.second)]
  {
    EncodeFields(t);
    EncodeText(t)
  }

  /** Every text `IntToString` produces is free of colons. */
  lemma NoColonInInt(i: int)
    ensures Colon !in IntToString(i)
  {
  }

  lemma EncodeFields(t: Time)
    ensures Split(EncodeText(t), Colon) ==
        if 0 <= t.minute < 10
        then [IntToString(t.hour), "0" + IntToString(t.minute)]
        else [IntToString(t.hour), IntToString(t.minute), IntToString(t.second)]
  {
    var h, m, s := IntToString(t.hour), IntToString(t.minute), IntToString(t.second);
    NoColonInInt(t.hour);
    NoColonInInt(t.minute);
    NoColonInInt(t.second);
    if 0 <= t.minute < 10 {
      var fields := [h, "0" + m];
      assert Colon !in "0" + m;
      assert Join(fields[1..], Colon) == "0" + m;
      SplitOfJoin(fields, Colon);
    } else {
      var fields := [h, m, s];
      assert Join(fields[2..], Colon) == s;
      assert Join(fields[1..], Colon) == m + [Colon] + s;
      assert h + [Colon] + (m + [Colon] + s) == Join(fields, Colon);
      SplitOfJoin(fields, Colon);
    }
  }

  /** Round trip of the persisted form: decoding `Encode(t)` gives `t` back
      exactly when the minute is not a single digit; for a minute in 0..9 the
      hour and minute still decode but `getSecond` finds no third field. */
  lemma DecodeEncode(t: Time)
    requires IsJavaTime(t)
    ensures Decode(Encode(t)).Ok? <==> !(0 <= t.minute < 10)
    ensures !(0 <= t.minute < 10) ==> Decode(Encode(t)) == Ok(t)
    ensures 0 <= t.minute < 10 ==>
      && GetHour(Encode(t)) == Ok(t.hour)
      && GetMinute(Encode(t)) == Ok(t.minute)
      && GetSecond(Encode(t)) == Err(MissingField(2))
      && Decode(Encode(t)) == Err(MissingField(2))
  {
    var r := Encode(t);
    var fields := Split(r, Colon);
    assert r == Join(fields, Colon);
    ParseIntOfIntToString(t.hour);
    ParseIntOfIntToString(t.minute);
    ParseIntOfIntToString(t.second);
    if 0 <= t.minute < 10 {
      var padded := "0" + IntToString(t.minute);
      assert padded == "0" + [DigitChar(t.minute)];
      assert DigitsValue(padded) == t.minute by {
        assert padded[..1] == "0";
      }
      assert fields == [IntToString(t.hour), padded];
    }
    FieldOfJoin(fields, 0);
    FieldOfJoin(fields, 1);
    FieldOfJoin(fields, 2);
  }

  /** The string `onDialogClosed` persists, on two concrete times: with a
      two-digit minute the seconds follow unpadded ("14:30:5"); with a
      one-digit minute they are dropped ("9:05"), and that string no longer
      decodes. */
  lemma EncodeExamples()
    ensures Encode(Time(14, 30, 5)) == "14:30:5"
    ensures Encode(Time(9, 5, 3)) == "9:05"
    ensures Decode("9:05") == Err(MissingField(2))
  {
    TwoDigitText(14);
    TwoDigitText(30);
    assert TwoDigits(14) == "14" && TwoDigits(30) == "30";
    assert IntToString(5) == "5" && IntToString(9) == "9";
    assert EncodeText(Time(14, 30, 5)) == "14" + [Colon] + ("30" + [Colon] + "5");
    assert "14" + [Colon] + ("30" + [Colon] + "5") == "14:30:5";
    assert EncodeText(Time(9, 5, 3)) == "9" + [Colon] + ("0" + "5");
    assert "9" + [Colon] + ("0" + "5") == "9:05";
    DecodeEncode(Time(9, 5, 3));
  }

  /** The persisted form with the evident intent of `onDialogClosed` restored: the
      seconds always follow the (zero-padded) minute after a second colon. */
  function EncodeFixed(t: Time): (r: string)
    ensures Split(r, Colon) ==
      [IntToString(t.hour), MinuteText(t.minute), IntToString(t.second)]
  {
    NoColonInInt(t.hour);
    NoColonInInt(t.minute);
    NoColonInInt(t.second);
    var fields := [IntToString(t.hour), MinuteText(t.minute), IntToString(t.second)];
    assert Join(fields[2..], Colon) == fields[2];
    assert Join(fields[1..], Colon) == fields[1] + [Colon] + fields[2];
    SplitOfJoin(fields, Colon);
    var r := IntToString(t.hour) + [Colon] + MinuteText(t.minute) + [Colon] + IntToString(t.second);
    assert r == Join(fields, Colon);
    r
  }

  /** The minute field of the corrected encoder: a '0' in front of a
      one-character text, as `onDialogClosed` pads it. */
  function MinuteText(minute: int): string {
    var text := IntToString(minute);
    if |text| == 1 then "0" + text else text
  }

  /** With the corrected encoder the round trip holds for every `int` triple. */
  lemma DecodeEncodeFixed(t: Time)
    requires IsJavaTime(t)
    ensures Decode(EncodeFixed(t)) == Ok(t)
  {
    ParseIntOfIntToString(t.hour);
    ParseIntOfIntToString(t.minute);
    ParseIntOfIntToString(t.second);
    if 0 <= t.minute < 10 {
      var padded := MinuteText(t.minute);
      assert padded == "0" + [DigitChar(t.minute)];
      assert DigitsValue(padded) == t.minute by {
        assert padded[..1] == "0";
      }
    }
    DecodeThreeFields(IntToString(t.hour), MinuteText(t.minute), IntToString(t.second));
  }

  /** One `HH`/`mm`/`ss` field of `SimpleDateFormat`: two digits, zero-padded. */
  function TwoDigits(n: nat): (s: string)
    requires n < 100
    ensures |s| == 2 && AllDigits(s) && DigitsValue(s) == n
  {
    var s := [DigitChar(n / 10), DigitChar(n % 10)];
    assert s[..1] == [DigitChar(n / 10)];
    assert s[..1][..0] == [];
    assert DigitsValue(s[..1]) == n / 10;
    assert DigitsValue(s) == 10 * (n / 10) + n % 10;
    s
  }

  /** A two-digit number prints as its zero-padded form. */
  lemma TwoDigitText(n: nat)
    requires 10 <= n < 100
    ensures IntToString(n) == TwoDigits(n)
  {
    assert NatToString(n / 10) == [DigitChar(n / 10)];
  }

  /** `getSummary` for a wall-clock time: `HH:mm:ss`, every field two digits. */
  function Summary(t: Time): (r: string)
    requires InDay(t)
    ensures |r| == 8 && r[2] == Colon && r[5] == Colon
    ensures forall i :: 0 <= i < 8 && i != 2 && i != 5 ==> IsDigit(r[i])
  {
    TwoDigits(t.hour) + [Colon] + TwoDigits(t.minute) + [Colon] + TwoDigits(t.second)
  }

  /** The summary is itself a valid persisted form: decoding it yields the
      time it displays, so no two wall-clock times share a summary. */
  lemma DecodeSummary(t: Time)
    requires InDay(t)
    ensures Decode(Summary(t)) == Ok(t)
  {
    DecodeThreeFields(TwoDigits(t.hour), TwoDigits(t.minute), TwoDigits(t.second));
  }

  /** A persisted form with a two-digit minute and a wall-clock time in it
      decodes to a time whose summary is the zero-padded form of that text. */
  lemma SummaryOfDecodedEncode(t: Time)
    requires InDay(t) && t.minute >= 10
    ensures var d := Decode(Encode(t)); d.Ok? && InDay(d.value) && Summary(d.value) == Summary(t)
  {
    DecodeEncode(t);
  }
}
