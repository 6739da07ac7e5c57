/** The preference's state machine: the three last-known fields and the
    persisted string, changed by `onSetInitialValue` and `onDialogClosed`. */
module TimePreference {
  import opened Results
  import opened Decimal
  import opened TimeCodec

  /** The in-memory fields of one preference together with the value its
      key/value store holds (`None` when nothing was persisted yet). */
  datatype Prefs = Prefs(last: Time, store: Option<string>)

  /** A freshly constructed preference: the fields start at zero. */
  function Fresh(store: Option<string>): (p: Prefs)
    ensures p.store == store && InDay(p.last) && Summary(p.last) == "00:00:00"
  {
    Prefs(Time(0, 0, 0), store)
  }

  /** The text used when no default value was supplied. */
  const ZeroTime: string := "00:00:00"

  function DefaultText(default: Option<string>): string {
    match default
    case Some(text) => text
    case None => ZeroTime
  }

  /** The text `onSetInitialValue` decodes: when restoring, the persisted
      value if there is one, else the default; otherwise the default. */
  function InitialText(p: Prefs, restore: bool, default: Option<string>): string {
    if restore && p.store.Some? then p.store.value else DefaultText(default)
  }

  /** The outcome of a transition that may throw: the state it leaves behind,
      and the getter error it threw, if any. */
  datatype Step = Step(prefs: Prefs, failure: Option<DecodeError>)

  /** `onSetInitialValue(restoreValue, defaultValue)`, with `shouldPersist()`
      as a parameter. The default is persisted first when not restoring; then
      the hour, minute and second are decoded and assigned one after another,
      so a getter that throws leaves the fields before it assigned and the
      ones after it untouched. */
  function SetInitialValue(p: Prefs, restore: bool, default: Option<string>, shouldPersist: bool): (r: Step)
    ensures r.prefs.store == (if !restore && shouldPersist then Some(DefaultText(default)) else p.store)
    ensures var text := InitialText(p, restore, default);
      match Decode(text)
      case Ok(t) => r.failure == None && r.prefs.last == t
      case Err(e) => r.failure == Some(e)
    ensures r.failure.Some? ==>
      var text := InitialText(p, restore, default);
      var k := r.failure.value.index;
      && k <= 2
      && (k > 0 ==> GetHour(text).Ok? && r.prefs.last.hour == GetHour(text).value)
      && (k > 1 ==> GetMinute(text).Ok? && r.prefs.last.minute == GetMinute(text).value)
      && (k == 0 ==> r.prefs.last.hour == p.last.hour)
      && (k <= 1 ==> r.prefs.last.minute == p.last.minute)
      && r.prefs.last.second == p.last.second
  {
    var text := InitialText(p, restore, default);
    var store := if !restore && shouldPersist then Some(DefaultText(default)) else p.store;
    match GetHour(text)
    case Err(e) => Step(Prefs(p.last, store), Some(e))
    case Ok(h) =>
      var withHour := p.last.(hour := h);
      match GetMinute(text)
      case Err(e) => Step(Prefs(withHour, store), Some(e))
      case Ok(m) =>
        var withMinute := withHour.(minute := m);
        match GetSecond(text)
        case Err(e) => Step(Prefs(withMinute, store), Some(e))
        case Ok(s) => Step(Prefs(withMinute.(second := s), store), None)
  }

  /** What closing the dialog did: the new state, the string offered to the
      change listener (if it was consulted) and the string written to the
      store (if any). */
  datatype Closing = Closing(prefs: Prefs, offered: Option<string>, written: Option<string>)

  /** `onDialogClosed(positiveResult)`, with the picker's values as `picked`
      and `callChangeListener` as `accepts` (a preference without a listener
      accepts everything). Cancel changes nothing and consults no one; confirm
      takes the picked fields first, then offers their encoding to the
      listener and persists it only if the listener accepts it. */
  function DialogClosed(p: Prefs, positive: bool, picked: Time, accepts: string -> bool): (r: Closing)
    ensures !positive ==> r.prefs == p && r.offered == None && r.written == None
    ensures positive ==> r.prefs.last == picked && r.offered == Some(Encode(picked))
    ensures positive && accepts(Encode(picked)) ==>
      r.written == Some(Encode(picked)) && r.prefs.store == r.written
    ensures positive && !accepts(Encode(picked)) ==> r.written == None && r.prefs.store == p.store
  {
    if !positive then Closing(p, None, None)
    else
      var time := Encode(picked);
      if accepts(time) then Closing(Prefs(picked, Some(time)), Some(time), Some(time))
      else Closing(Prefs(picked, p.store), Some(time), None)
  }

  /** Confirming a time whose minute is not a single digit, with the listener
      accepting, persists a string from which a later restore (say after the
      app restarts) recovers exactly the picked fields. */
  lemma ConfirmThenRestore(p: Prefs, picked: Time, accepts: string -> bool, default: Option<string>, shouldPersist: bool)
    requires IsJavaTime(picked) && !(0 <= picked.minute < 10)
    requires accepts(Encode(picked))
    ensures var closed := DialogClosed(p, true, picked, accepts);
      var restored := SetInitialValue(Fresh(closed.prefs.store), true, default, shouldPersist);
      restored.failure == None && restored.prefs.last == picked
  {
    DecodeEncode(picked);
  }

  /** Confirming a time whose minute is 0..9, with the listener accepting,
      persists a string that cannot be restored: `getSecond` throws for the
      missing third field after the hour and minute have been assigned, so
      the second keeps the value it had before the restore. */
  lemma ConfirmShortMinuteThenRestore(p: Prefs, picked: Time, accepts: string -> bool, default: Option<string>, shouldPersist: bool)
    requires IsJavaTime(picked) && 0 <= picked.minute < 10
    requires accepts(Encode(picked))
    ensures var closed := DialogClosed(p, true, picked, accepts);
      var restored := SetInitialValue(Fresh(closed.prefs.store), true, default, shouldPersist);
      restored.failure == Some(MissingField(2))
      && restored.prefs.last == Time(picked.hour, picked.minute, 0)
  {
    DecodeEncode(picked);
  }

  /** A vetoed confirmation shows the picked time in the summary but leaves
      the store as it was, so a later restore reads the old persisted value. */
  lemma VetoThenRestore(p: Prefs, picked: Time, accepts: string -> bool, default: Option<string>, shouldPersist: bool)
    requires InDay(picked) && !accepts(Encode(picked))
    ensures var closed := DialogClosed(p, true, picked, accepts);
      && InDay(closed.prefs.last) && Summary(closed.prefs.last) == Summary(picked)
      && SetInitialValue(Fresh(closed.prefs.store), true, default, shouldPersist)
         == SetInitialValue(Fresh(p.store), true, default, shouldPersist)
  {
  }

  /** Cancelling leaves the summary and the store as they were. */
  lemma CancelKeepsSummary(p: Prefs, picked: Time, accepts: string -> bool)
    requires InDay(p.last)
    ensures var closed := DialogClosed(p, false, picked, accepts);
      InDay(closed.prefs.last) && Summary(closed.prefs.last) == Summary(p.last)
      && closed.prefs.store == p.store
  {
  }

  /** Without a default and without restoring, the fields become 0:00:00 and
      "00:00:00" is written to the store exactly when the preference persists. */
  lemma InitialWithoutDefault(p: Prefs, shouldPersist: bool)
    ensures var r := SetInitialValue(p, false, None, shouldPersist);
      && r.failure == None && r.prefs.last == Time(0, 0, 0)
      && (r.prefs.store == Some(ZeroTime) <==> shouldPersist || p.store == Some(ZeroTime))
      && (!shouldPersist ==> r.prefs.store == p.store)
  {
    assert Summary(Time(0, 0, 0)) == ZeroTime;
    DecodeSummary(Time(0, 0, 0));
  }

  /** A default persisted by a non-restoring initialisation is what a later
      restoring one decodes: both end with the same error or the same fields. */
  lemma PersistedDefaultRestores(p: Prefs, default: Option<string>, other: Option<string>, shouldPersist: bool)
    ensures var first := SetInitialValue(p, false, default, true);
      var second := SetInitialValue(Fresh(first.prefs.store), true, other, shouldPersist);
      second.failure == first.failure && (first.failure == None ==> second.prefs.last == first.prefs.last)
  {
  }

  /** Restoring the persisted "9:05:03" sets the fields to 9, 5 and 3 and the
      summary to "09:05:03". */
  lemma RestoreExample(p: Prefs, default: Option<string>, shouldPersist: bool)
    requires p.store == Some("9:05:03")
    ensures var r := SetInitialValue(p, true, default, shouldPersist);
      r.failure == None && r.prefs.last == Time(9, 5, 3)
      && InDay(r.prefs.last) && Summary(r.prefs.last) == "09:05:03"
  {
    ExampleDecode();
    var r := SetInitialValue(p, true, default, shouldPersist);
    assert InitialText(p, true, default) == "9:05:03";
    assert r.failure == None && r.prefs.last == Time(9, 5, 3);
    ExampleSummary();
  }

  lemma ExampleSummary()
    ensures Summary(Time(9, 5, 3)) == "09:05:03"
  {
    assert TwoDigits(9) == "09";
    assert TwoDigits(5) == "05";
    assert TwoDigits(3) == "03";
  }

  lemma ExampleDecode()
    ensures Decode("9:05:03") == Ok(Time(9, 5, 3))
  {
    ExampleFields();
    assert "9" + [Colon] + "05" + [Colon] + "03" == "9:05:03";
    DecodeThreeFields("9", "05", "03");
  }

  lemma ExampleFields()
    ensures ParseInt("9") == Some(9) && ParseInt("05") == Some(5) && ParseInt("03") == Some(3)
  {
    assert IntToString(9) == "9";
    ParseIntOfIntToString(9);
    assert TwoDigits(5) == "05";
    assert TwoDigits(3) == "03";
  }

  /** Confirming 14:30:45 with no listener persists "14:30:45": both colons
      are kept when the minute has two digits. */
  lemma ConfirmExample(p: Prefs)
    ensures DialogClosed(p, true, Time(14, 30, 45), _ => true).written == Some("14:30:45")
  {
    TwoDigitText(14);
    TwoDigitText(30);
    TwoDigitText(45);
    assert TwoDigits(14) == "14";
    assert TwoDigits(30) == "30";
    assert TwoDigits(45) == "45";
    var t := Time(14, 30, 45);
    assert EncodeText(t) == "14" + [Colon] + ("30" + [Colon] + "45");
    assert "14" + [Colon] + ("30" + [Colon] + "45") == "14:30:45";
  }
}
