/** Display helpers of the web console (console/src/lib/api.ts): the uptime
    label of the status page and the names and colours it shows for the
    daemon's status and trigger texts. Uptime is taken in whole seconds;
    JavaScript's `Math.floor` and truncating `%` are written out. */
module Console {
  import opened Wrappers
  import opened Models
  import Text
  import Store
  import Dispatch

  /** JavaScript's `a % b` for a positive divisor: the remainder keeps the
      sign of the dividend, so it agrees with the Euclidean one only for
      a non-negative dividend. */
  function JsRem(a: int, b: int): (r: int)
    requires b > 0
    ensures a == TruncDiv(a, b) * b + r
    ensures a >= 0 ==> r == a % b
    ensures a < 0 ==> -b < r <= 0
  {
    if a >= 0 then a % b else -((-a) % b)
  }

  /** Division rounding toward zero, the quotient that goes with
      JavaScript's `%`. */
  function TruncDiv(a: int, b: int): (q: int)
    requires b > 0
    ensures a >= 0 ==> q * b <= a < q * b + b
    ensures a < 0 ==> q * b - b < a <= q * b
  {
    if a >= 0 then a / b else -((-a) / b)
  }

  /** `Math.floor(a / b)` for a positive divisor. */
  function FloorDiv(a: int, b: int): (q: int)
    requires b > 0
    ensures q * b <= a < q * b + b
  {
    a / b
  }

  datatype Uptime = Uptime(days: int, hours: int, minutes: int)

  /** The three numbers `formatUptime` computes. For a non-negative uptime
      they are the whole days, the hours past them and the minutes past
      those; together they fall short of the uptime by under a minute. */
  function UptimeParts(seconds: int): (u: Uptime)
    ensures seconds >= 0 ==>
              && u.days >= 0 && 0 <= u.hours < 24 && 0 <= u.minutes < 60
              && Total(u) <= seconds < Total(u) + 60
    ensures seconds < 0 ==> u.days < 0 && u.hours <= 0 && u.minutes <= 0
  {
    var u := Uptime(FloorDiv(seconds, 86400), FloorDiv(JsRem(seconds, 86400), 3600), FloorDiv(JsRem(seconds, 3600), 60));
    if seconds >= 0 then
      var inDay := seconds % 86400;
      assert seconds == u.days * 86400 + inDay;
      assert inDay == u.hours * 3600 + inDay % 3600;
      assert seconds == (u.days * 24 + u.hours) * 3600 + inDay % 3600;
      assert seconds % 3600 == inDay % 3600;
      u
    else u
  }

  function Total(u: Uptime): int {
    u.days * 86400 + u.hours * 3600 + u.minutes * 60
  }

  /** `formatUptime`: days and hours when there is at least a day, hours
      and minutes when there is at least an hour, minutes otherwise. */
  function FormatUptime(seconds: int): (s: string)
    ensures |s| > 0 && s[|s| - 1] in "hm"
  {
    var u := UptimeParts(seconds);
    if u.days > 0 then Field(u.days, 'd') + " " + Field(u.hours, 'h')
    else if u.hours > 0 then Field(u.hours, 'h') + " " + Field(u.minutes, 'm')
    else Field(u.minutes, 'm')
  }

  /** Which fields the label shows for a non-negative uptime: days and
      hours from one day on, hours and minutes from one hour on, minutes
      below that, and "0m" under a minute. */
  lemma FormatUptimeShape(seconds: int)
    ensures seconds >= 86400 ==>
              FormatUptime(seconds) == Field(seconds / 86400, 'd') + " " + Field(seconds % 86400 / 3600, 'h')
    ensures 3600 <= seconds < 86400 ==>
              FormatUptime(seconds) == Field(seconds / 3600, 'h') + " " + Field(seconds % 3600 / 60, 'm')
    ensures 0 <= seconds < 3600 ==> FormatUptime(seconds) == Field(seconds / 60, 'm')
    ensures 0 <= seconds < 60 ==> FormatUptime(seconds) == "0m"
  {
    var u := UptimeParts(seconds);
    if seconds >= 86400 {
      assert u.days == seconds / 86400 > 0;
      assert u.hours == seconds % 86400 / 3600;
    } else if seconds >= 3600 {
      assert u.days == 0;
      assert JsRem(seconds, 86400) == seconds;
      assert u.hours == seconds / 3600 > 0;
      assert u.minutes == seconds % 3600 / 60;
    } else if seconds >= 0 {
      assert u.days == 0 && u.hours == 0;
      assert JsRem(seconds, 3600) == seconds;
      assert u.minutes == seconds / 60;
      if seconds < 60 {
        assert u.minutes == 0;
        ZeroMinutes();
      }
    }
  }

  lemma ZeroMinutes()
    ensures Field(0, 'm') == "0m"
  {
    assert Text.IntToDecimal(0) == "0";
  }

  /** One `${n}u` of the label. */
  function Field(n: int, unit: char): string {
    Text.IntToDecimal(n) + [unit]
  }

  /** The position of the first space in `s`, or `|s|` without one. */
  function FirstSpace(s: string): (k: nat)
    ensures k <= |s| && ' ' !in s[..k]
    ensures k < |s| ==> s[k] == ' '
  {
    if |s| == 0 || s[0] == ' ' then 0
    else
      var k := 1 + FirstSpace(s[1..]);
      assert s[..k] == [s[0]] + s[1..][..k - 1];
      k
  }

  /** A number followed by a unit letter, as in "12h". */
  function ReadField(t: string, unit: char): Option<nat> {
    if |t| >= 2 && t[|t| - 1] == unit && Text.IsDecimal(t[..|t| - 1]) then
      Some(Text.DecimalValue(t[..|t| - 1]))
    else None
  }

  /** Reads an uptime label back into the seconds it stands for: "Nd Mh",
      "Nh Mm" or "Nm". */
  function ReadUptime(s: string): Option<nat> {
    var k := FirstSpace(s);
    if k == |s| then
      match ReadField(s, 'm')
      case Some(m) => Some(m * 60)
      case None => None
    else
      var first := s[..k];
      var second := s[k + 1..];
      var days, hours := ReadField(first, 'd'), ReadField(second, 'h');
      var hours', minutes := ReadField(first, 'h'), ReadField(second, 'm');
      if days.Some? && hours.Some? then Some(days.value * 86400 + hours.value * 3600)
      else if hours'.Some? && minutes.Some? then Some(hours'.value * 3600 + minutes.value * 60)
      else None
  }

  lemma ReadFieldOf(n: nat, unit: char)
    requires !Text.IsDigit(unit)
    ensures ReadField(Field(n, unit), unit) == Some(n)
  {
    var t := Field(n, unit);
    assert t[..|t| - 1] == Text.NatToDecimal(n);
  }

  lemma FirstSpaceAfter(a: string, b: string)
    requires forall i :: 0 <= i < |a| ==> a[i] != ' '
    ensures FirstSpace(a + " " + b) == |a|
  {
    var s := a + " " + b;
    assert s[|a|] == ' ';
  }

  lemma DecimalHasNoSpace(n: nat)
    ensures forall i :: 0 <= i < |Text.NatToDecimal(n)| ==> Text.NatToDecimal(n)[i] != ' '
  {
  }

  /** Reading a two-field label gives back both numbers. */
  lemma ReadPair(x: nat, y: nat, ux: char, uy: char)
    requires !Text.IsDigit(ux) && !Text.IsDigit(uy) && ux != ' '
    ensures var s := Field(x, ux) + " " + Field(y, uy);
            var k := FirstSpace(s);
            k < |s| && ReadField(s[..k], ux) == Some(x) && ReadField(s[k + 1..], uy) == Some(y)
  {
    var a := Field(x, ux);
    var b := Field(y, uy);
    var s := a + " " + b;
    DecimalHasNoSpace(x);
    FirstSpaceAfter(a, b);
    assert s[..|a|] == a && s[|a| + 1..] == b;
    ReadFieldOf(x, ux);
    ReadFieldOf(y, uy);
  }

  lemma DaysLabelReads(d: nat, h: nat)
    ensures ReadUptime(Field(d, 'd') + " " + Field(h, 'h')) == Some(d * 86400 + h * 3600)
  {
    ReadPair(d, h, 'd', 'h');
  }

  lemma HoursLabelReads(h: nat, m: nat)
    ensures ReadUptime(Field(h, 'h') + " " + Field(m, 'm')) == Some(h * 3600 + m * 60)
  {
    var s := Field(h, 'h') + " " + Field(m, 'm');
    ReadPair(h, m, 'h', 'm');
    var k := FirstSpace(s);
    assert ReadField(s[..k], 'd').None?;
  }

  lemma MinutesLabelReads(m: nat)
    ensures ReadUptime(Field(m, 'm')) == Some(m * 60)
  {
    var s := Field(m, 'm');
    DecimalHasNoSpace(m);
    assert FirstSpace(s) == |s| by {
      assert forall i :: 0 <= i < |s| ==> s[i] != ' ';
    }
    ReadFieldOf(m, 'm');
  }

  /** The label loses only what lies below its smallest unit: read back it
      gives a time at most the uptime, less than an hour short when it
      shows days and less than a minute short otherwise. */
  lemma UptimeReadsBack(seconds: int)
    requires seconds >= 0
    ensures var shown := ReadUptime(FormatUptime(seconds));
            && shown.Some?
            && shown.value <= seconds
            && seconds < shown.value + (if seconds >= 86400 then 3600 else 60)
  {
    var u := UptimeParts(seconds);
    if u.days > 0 {
      DaysLabelReads(u.days, u.hours);
    } else if u.hours > 0 {
      HoursLabelReads(u.hours, u.minutes);
    } else {
      MinutesLabelReads(u.minutes);
    }
  }

  /** A negative uptime is always shown in minutes alone: JavaScript's `%`
      keeps the sign, so days and hours are never positive, and the
      minutes are those of the part below an hour, rounded away from zero.
      Whole hours and days vanish: minus 25 hours shows as "0m". */
  lemma NegativeUptimeShowsMinutes(seconds: int)
    requires seconds < 0
    ensures FormatUptime(seconds) == Field(-(((-seconds) % 3600 + 59) / 60), 'm')
  {
    var r := (-seconds) % 3600;
    FloorOfNegative(r);
    assert UptimeParts(seconds).minutes == FloorDiv(-r, 60);
  }

  /** Flooring a negative remainder rounds it away from zero. */
  lemma FloorOfNegative(r: int)
    requires 0 <= r < 3600
    ensures FloorDiv(-r, 60) == -((r + 59) / 60)
  {
    var q := (r + 59) / 60;
    assert q * 60 <= r + 59 < q * 60 + 60;
    assert -q * 60 <= -r < -q * 60 + 60;
  }

  // ---------------------------------------------------------------------
  // Status and trigger names

  /** `getStatusColor`: the badge colour for a status text. */
  function GetStatusColor(status: string): (c: string)
    ensures c == "success" <==> status == "online"
    ensures c == "danger" <==> status == "offline"
    ensures c == "success" || c == "danger" || c == "secondary"
  {
    match status
    case "online" => "success"
    case "offline" => "danger"
    case _ => "secondary"
  }

  /** The colour each status the daemon can hold deserves. */
  function ColorOf(s: DeviceStatus): string {
    match s
    case Online => "success"
    case Offline => "danger"
    case Unknown => "secondary"
  }

  /** The console colours a status text just as the daemon decodes it:
      every text the daemon reads as Unknown is shown as such. */
  lemma StatusColorFollowsDecoding(t: string)
    ensures GetStatusColor(t) == ColorOf(Store.DecodeStatus(t))
  {
  }

  /** `getTriggerTypeLabel`: a readable name for each trigger text; any
      other text is shown as it is. */
  function GetTriggerTypeLabel(t: string): (shown: string)
    ensures t !in {"new_device", "device_connected", "device_disconnected", "device_status_change"} ==> shown == t
  {
    match t
    case "new_device" => "New Device"
    case "device_connected" => "Device Connected"
    case "device_disconnected" => "Device Disconnected"
    case "device_status_change" => "Status Change"
    case _ => t
  }

  /** The label of each stored trigger text; the console's names agree
      with the daemon's ntfy titles except for the status change. */
  lemma TriggerLabels(t: TriggerType)
    ensures GetTriggerTypeLabel("new_device") == "New Device"
    ensures GetTriggerTypeLabel("device_connected") == "Device Connected"
    ensures GetTriggerTypeLabel("device_disconnected") == "Device Disconnected"
    ensures GetTriggerTypeLabel("device_status_change") == "Status Change"
    ensures GetTriggerTypeLabel(TriggerText(t)) == Dispatch.NtfyTitle(t) <==> t != DeviceStatusChange
  {
  }

  /** The four trigger types get four different labels, none equal to a
      trigger's stored text; texts the daemon rejects are shown as they
      are. */
  lemma TriggerLabelsDistinct(a: TriggerType, b: TriggerType, t: string)
    ensures GetTriggerTypeLabel(TriggerText(a)) == GetTriggerTypeLabel(TriggerText(b)) ==> a == b
    ensures GetTriggerTypeLabel(TriggerText(a)) != TriggerText(b)
    ensures Store.DecodeTrigger(t).Err? ==> GetTriggerTypeLabel(t) == t
  {
    if Store.DecodeTrigger(t).Err? {
      Store.TriggerRoundTrip(NewDevice);
      Store.TriggerRoundTrip(DeviceConnected);
      Store.TriggerRoundTrip(DeviceDisconnected);
      Store.TriggerRoundTrip(DeviceStatusChange);
    }
  }
}
