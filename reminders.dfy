/** Watering reminders: the first due time of a new reminder, the permission
    gate in front of saving, the polling tick that reschedules due reminders,
    and delete. Times are integer milliseconds and every day is exactly
    `DayMs` long. */
module Reminders {

  const DayMs: int := 86_400_000
  const HourMs: int := 3_600_000
  const MinuteMs: int := 60_000

  datatype Reminder = Reminder(id: string, plantName: string, frequencyDays: nat, reminderTime: string, nextDueDate: int)

  /** `Notification.permission`. */
  datatype Permission = Default | Granted | Denied

  /** A browser notification. */
  datatype Notice = Notice(title: string, body: string)

  /** What the save handler does after consulting the permission. */
  datatype Gate = Proceed | Alert(message: string)

  const AskedAndRefused := "You need to grant notification permission to set reminders."
  const NotGranted := "Notification permission is not granted. Please enable it in browser settings."

  /** The notification shown for a due reminder. */
  function Reminding(plantName: string): Notice {
    Notice("Watering Reminder", "It's time to water your " + plantName + ".")
  }

  // ---------------------------------------------------------------------
  // "HH:mm" times

  predicate IsDigit(c: char) { '0' <= c <= '9' }

  function DigitValue(c: char): nat
    requires IsDigit(c)
  {
    (c as int - '0' as int) as nat
  }

  function DigitChar(d: nat): (c: char)
    requires d < 10
    ensures IsDigit(c) && DigitValue(c) == d
  {
    ('0' as int + d) as char
  }

  /** The value of a time input: two-digit hours below 24, a colon, two-digit
      minutes below 60. */
  predicate IsTimeText(s: string) {
    |s| == 5 && IsDigit(s[0]) && IsDigit(s[1]) && s[2] == ':' && IsDigit(s[3]) && IsDigit(s[4])
    && DigitValue(s[0]) * 10 + DigitValue(s[1]) < 24
    && DigitValue(s[3]) * 10 + DigitValue(s[4]) < 60
  }

  /** `reminderTime.split(':').map(Number)`. */
  function ParseTime(s: string): (hm: (nat, nat))
    requires IsTimeText(s)
    ensures hm.0 < 24 && hm.1 < 60
  {
    (DigitValue(s[0]) * 10 + DigitValue(s[1]), DigitValue(s[3]) * 10 + DigitValue(s[4]))
  }

  /** A time of day written as a time input writes it. */
  function FormatTime(h: nat, m: nat): (s: string)
    requires h < 24 && m < 60
    ensures IsTimeText(s)
  {
    [DigitChar(h / 10), DigitChar(h % 10), ':', DigitChar(m / 10), DigitChar(m % 10)]
  }

  lemma ParseFormat(h: nat, m: nat)
    requires h < 24 && m < 60
    ensures ParseTime(FormatTime(h, m)) == (h, m)
  {
  }

  lemma FormatParse(s: string)
    requires IsTimeText(s)
    ensures FormatTime(ParseTime(s).0, ParseTime(s).1) == s
  {
    var (h, m) := ParseTime(s);
    var t := FormatTime(h, m);
    assert t[0] == s[0] && t[1] == s[1] && t[3] == s[3] && t[4] == s[4];
  }

  // ---------------------------------------------------------------------
  // Saving a reminder

  /** The first due time: today at h:m, or tomorrow at h:m when that is not
      after `now`. `todayStart` is the start of the current day. */
  function FirstDue(todayStart: int, now: int, h: nat, m: nat): (t: int)
    requires todayStart <= now < todayStart + DayMs
    requires h < 24 && m < 60
    ensures now < t <= now + DayMs
    ensures (t - todayStart) % DayMs == h * HourMs + m * MinuteMs
    ensures t == todayStart + h * HourMs + m * MinuteMs || t == todayStart + DayMs + h * HourMs + m * MinuteMs
  {
    var today := todayStart + h * HourMs + m * MinuteMs;
    if today <= now then today + DayMs else today
  }

  /** The first due time is the earliest moment after `now` at h:m. */
  lemma FirstDueIsNext(todayStart: int, now: int, h: nat, m: nat, t': int)
    requires todayStart <= now < todayStart + DayMs
    requires h < 24 && m < 60
    requires now < t' && (t' - todayStart) % DayMs == h * HourMs + m * MinuteMs
    ensures FirstDue(todayStart, now, h, m) <= t'
  {
    var off := h * HourMs + m * MinuteMs;
    var k := (t' - todayStart) / DayMs;
    assert t' == todayStart + k * DayMs + off;
    if k <= 0 {
      assert t' <= todayStart + off;
    }
  }

  /** The gate in front of saving, as written: a `Default` permission is
      first requested (`requested` is the user's answer), but the second test
      reads the permission the handler started with. */
  function SaveGate(permission: Permission, requested: Permission): (g: Gate)
    ensures g == Proceed <==> permission == Granted
  {
    if permission == Default && requested != Granted then
      Alert(AskedAndRefused)
    else if permission != Granted then
      Alert(NotGranted)
    else Proceed
  }

  /** The permission after the handler: the answer to the request when one
      was made. */
  function PermissionAfterSave(permission: Permission, requested: Permission): (r: Permission)
    ensures permission != Default ==> r == permission
    ensures r == Default ==> permission == Default && requested == Default
  {
    if permission == Default then requested else permission
  }

  /** Granting permission at the prompt does not save the reminder: the user
      sees the "not granted" alert and must save again. */
  lemma FreshGrantStillRefused()
    ensures SaveGate(Default, Granted) == Alert(NotGranted)
    ensures PermissionAfterSave(Default, Granted) == Granted
    ensures SaveGate(PermissionAfterSave(Default, Granted), Granted) == Proceed
  {
  }

  // ---------------------------------------------------------------------
  // The polling tick

  predicate Due(r: Reminder, now: int) { now >= r.nextDueDate }

  /** A due reminder moved on by its frequency, keeping its time of day. */
  function Advanced(r: Reminder): (r': Reminder)
    ensures r'.nextDueDate - r.nextDueDate == r.frequencyDays * DayMs
    ensures r'.(nextDueDate := r.nextDueDate) == r
  {
    r.(nextDueDate := r.nextDueDate + r.frequencyDays * DayMs)
  }

  /** `prev.map(r => r.id === id ? { ...r, nextDueDate: d } : r)`. */
  function SetDue(rs: seq<Reminder>, id: string, d: int): (r: seq<Reminder>)
    ensures |r| == |rs|
    ensures forall i :: 0 <= i < |rs| ==> r[i] == if rs[i].id == id then rs[i].(nextDueDate := d) else rs[i]
  {
    seq(|rs|, i requires 0 <= i < |rs| => if rs[i].id == id then rs[i].(nextDueDate := d) else rs[i])
  }

  /** The queued updates of one tick applied in order to `rs`: for each due
      reminder of the snapshot, its id gets the snapshot's due date plus the
      frequency. */
  function ApplyTick(rs: seq<Reminder>, snapshot: seq<Reminder>, now: int): (r: seq<Reminder>)
    ensures |r| == |rs|
    ensures forall i :: 0 <= i < |rs| ==> r[i].(nextDueDate := rs[i].nextDueDate) == rs[i]
  {
    if snapshot == [] then rs
    else
      var rs' := ApplyTick(rs, snapshot[..|snapshot| - 1], now);
      var s := snapshot[|snapshot| - 1];
      if Due(s, now) then SetDue(rs', s.id, Advanced(s).nextDueDate) else rs'
  }

  /** The reminders of `rs` that are due at `now`, in order. */
  function DueOnes(rs: seq<Reminder>, now: int): (d: seq<Reminder>)
    ensures forall r :: r in d <==> r in rs && Due(r, now)
    ensures |d| <= |rs|
  {
    if rs == [] then []
    else
      var init := rs[..|rs| - 1];
      var last := rs[|rs| - 1];
      assert rs == init + [last];
      if Due(last, now) then DueOnes(init, now) + [last] else DueOnes(init, now)
  }

  /** The filter keeps order and multiplicity: it works piece by piece. */
  lemma {:induction false} DueOnesAppend(a: seq<Reminder>, b: seq<Reminder>, now: int)
    ensures DueOnes(a + b, now) == DueOnes(a, now) + DueOnes(b, now)
    decreases |b|
  {
    if b == [] {
      assert a + b == a;
    } else {
      var init := b[..|b| - 1];
      assert a + b == (a + init) + [b[|b| - 1]];
      assert (a + b)[..|a + b| - 1] == a + init;
      DueOnesAppend(a, init, now);
    }
  }

  /** On one reminder the filter keeps it exactly when it is due. */
  lemma DueOnesOne(x: Reminder, now: int)
    ensures DueOnes([x], now) == if Due(x, now) then [x] else []
  {
    assert [x][..0] == [];
  }

  /** The notifications of one tick: one per due reminder, in order, when
      permitted, and none otherwise. */
  function TickNotices(snapshot: seq<Reminder>, now: int, permission: Permission): (ns: seq<Notice>)
    ensures permission != Granted ==> ns == []
    ensures permission == Granted ==> |ns| == |DueOnes(snapshot, now)|
    ensures permission == Granted ==>
              forall k :: 0 <= k < |ns| ==> ns[k] == Reminding(DueOnes(snapshot, now)[k].plantName)
  {
    if snapshot == [] then []
    else
      var ns := TickNotices(snapshot[..|snapshot| - 1], now, permission);
      var s := snapshot[|snapshot| - 1];
      if Due(s, now) && permission == Granted
      then ns + [Reminding(s.plantName)]
      else ns
  }

  predicate UniqueIds(rs: seq<Reminder>) {
    forall i, j :: 0 <= i < j < |rs| ==> rs[i].id != rs[j].id
  }

  /** After the updates of the first k snapshot entries: those that were due
      have moved on by their frequency, all others are as they were. */
  lemma {:induction false} ApplyTickPrefix(rs: seq<Reminder>, now: int, k: nat)
    requires UniqueIds(rs) && k <= |rs|
    ensures |ApplyTick(rs, rs[..k], now)| == |rs|
    ensures forall j :: 0 <= j < |rs| ==>
              ApplyTick(rs, rs[..k], now)[j] == if j < k && Due(rs[j], now) then Advanced(rs[j]) else rs[j]
  {
    if k > 0 {
      ApplyTickPrefix(rs, now, k - 1);
      assert rs[..k][..k - 1] == rs[..k - 1];
      var prev := ApplyTick(rs, rs[..k - 1], now);
      var s := rs[k - 1];
      if Due(s, now) {
        var next := SetDue(prev, s.id, Advanced(s).nextDueDate);
        forall j | 0 <= j < |rs|
          ensures next[j] == if j < k && Due(rs[j], now) then Advanced(rs[j]) else rs[j]
        {
          assert prev[j].id == rs[j].id;
          if j != k - 1 {
            assert rs[j].id != s.id;
          }
        }
      }
    }
  }

  /** One tick advances every due reminder by exactly its frequency, whatever
      the permission, and leaves every reminder that is not due unchanged. */
  lemma TickReschedules(rs: seq<Reminder>, now: int)
    requires UniqueIds(rs)
    ensures |ApplyTick(rs, rs, now)| == |rs|
    ensures forall j :: 0 <= j < |rs| ==>
              ApplyTick(rs, rs, now)[j] == if Due(rs[j], now) then Advanced(rs[j]) else rs[j]
  {
    ApplyTickPrefix(rs, now, |rs|);
    assert rs[..|rs|] == rs;
  }

  /** After a tick no reminder with a frequency of at least one day is still
      more than a day overdue for the slot it just used. */
  lemma TickMovesForward(rs: seq<Reminder>, now: int, j: int)
    requires UniqueIds(rs) && 0 <= j < |rs|
    requires Due(rs[j], now) && rs[j].frequencyDays >= 1
    ensures |ApplyTick(rs, rs, now)| == |rs|
    ensures ApplyTick(rs, rs, now)[j].nextDueDate >= rs[j].nextDueDate + DayMs
  {
    TickReschedules(rs, now);
  }

  /** `prev.filter(r => r.id !== id)`. */
  function RemoveReminder(rs: seq<Reminder>, id: string): (r: seq<Reminder>)
    ensures forall x :: x in r <==> x in rs && x.id != id
    ensures forall i :: 0 <= i < |r| ==> r[i].id != id
  {
    if rs == [] then []
    else if rs[0].id == id then RemoveReminder(rs[1..], id)
    else
      assert rs == [rs[0]] + rs[1..];
      [rs[0]] + RemoveReminder(rs[1..], id)
  }

  /** The filter keeps order and multiplicity: it works piece by piece. */
  lemma {:induction false} RemoveReminderAppend(a: seq<Reminder>, b: seq<Reminder>, id: string)
    ensures RemoveReminder(a + b, id) == RemoveReminder(a, id) + RemoveReminder(b, id)
  {
    if a == [] {
      assert a + b == b;
    } else {
      assert (a + b)[0] == a[0] && (a + b)[1..] == a[1..] + b;
      RemoveReminderAppend(a[1..], b, id);
    }
  }

  /** On one reminder the filter keeps it exactly when its id differs. */
  lemma RemoveReminderOne(x: Reminder, id: string)
    ensures RemoveReminder([x], id) == if x.id == id then [] else [x]
  {
    assert [x][1..] == [];
  }

  /** The reminder list with the browser's notification permission. */
  class ReminderStore {
    var reminders: seq<Reminder>
    var permission: Permission

    constructor()
      ensures reminders == [] && permission == Default
    {
      reminders := [];
      permission := Default;
    }

    /** `handleSaveReminder`: `requested` is the answer to the permission
        request (read only when the permission is `Default`), `todayStart`
        and `now` the clock, `newId` the fresh reminder id. */
    method SaveReminder(plantName: string, frequencyDays: nat, reminderTime: string,
                        requested: Permission, todayStart: int, now: int, newId: string)
      returns (gate: Gate)
      requires IsTimeText(reminderTime)
      requires todayStart <= now < todayStart + DayMs
      modifies this
      ensures gate == SaveGate(old(permission), requested)
      ensures permission == PermissionAfterSave(old(permission), requested)
      ensures gate.Alert? ==> reminders == old(reminders)
      ensures gate == Proceed ==>
                reminders == old(reminders) + [Reminder(newId, plantName, frequencyDays, reminderTime,
                  FirstDue(todayStart, now, ParseTime(reminderTime).0, ParseTime(reminderTime).1))]
    {
      var granted := permission;
      if granted == Default {
        permission := requested;
        if requested != Granted {
          return Alert(AskedAndRefused);
        }
      }
      if granted != Granted {
        return Alert(NotGranted);
      }
      var (h, m) := ParseTime(reminderTime);
      var due := todayStart + h * HourMs + m * MinuteMs;
      if due <= now {
        due := due + DayMs;
      }
      reminders := reminders + [Reminder(newId, plantName, frequencyDays, reminderTime, due)];
      return Proceed;
    }

    method DeleteReminder(id: string)
      modifies this
      ensures reminders == RemoveReminder(old(reminders), id)
      ensures permission == old(permission)
    {
      reminders := RemoveReminder(reminders, id);
    }

    /** One run of the interval callback at time `now`: walks the reminders
        as they were when the interval was set up, queues the new due date
        of each due one and collects the notifications shown. */
    method Tick(now: int) returns (notices: seq<Notice>)
      modifies this
      ensures reminders == ApplyTick(old(reminders), old(reminders), now)
      ensures notices == TickNotices(old(reminders), now, old(permission))
      ensures permission == old(permission)
    {
      var snapshot := reminders;
      notices := [];
      var i := 0;
      while i < |snapshot|
        invariant 0 <= i <= |snapshot|
        invariant permission == old(permission) && snapshot == old(reminders)
        invariant reminders == ApplyTick(snapshot, snapshot[..i], now)
        invariant notices == TickNotices(snapshot[..i], now, permission)
      {
        var r := snapshot[i];
        assert snapshot[..i + 1][..i] == snapshot[..i];
        if now >= r.nextDueDate {
          if permission == Granted {
            notices := notices + [Reminding(r.plantName)];
          }
          var next := r.nextDueDate + r.frequencyDays * DayMs;
          reminders := SetDue(reminders, r.id, next);
        }
        i := i + 1;
      }
      assert snapshot[..i] == snapshot;
    }
  }
}
