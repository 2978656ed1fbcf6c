/** The page helpers of the client (the UI object): the time-remaining text,
    the expiry classification of a file card, the download modal's passcode
    field and form check, and the periodic check for newly received files.
    Dates are integer milliseconds; the clock is a parameter. */
module Ui {
  import opened Common
  import Passcode

  /** A date field as the client sees it: absent or empty, present but not a
      date (new Date(...) is invalid, arithmetic on it gives NaN), or a date. */
  datatype Stamp = Missing | Unparsable | At(ms: int)

  /** A file as listed by the server. `mongoId` is the `_id` field. */
  datatype ClientFile = ClientFile(id: Option<string>, mongoId: Option<string>, createdAt: Stamp, expiresAt: Stamp)

  const MinuteMs: nat := 60000
  const CriticalMs: nat := 900000

  function Plural(n: int): string {
    if n != 1 then "s" else ""
  }

  // ---------------------------------------------------------------------------
  // getTimeRemaining.

  /** getTimeRemaining(expiry) at time `now`. An invalid date makes every
      comparison false and every number NaN. */
  function GetTimeRemaining(expiry: Stamp, now: int): (s: string)
    ensures s == "Expired" <==> expiry.At? && expiry.ms - now <= 0
  {
    if !expiry.At? then "NaN hours "
    else
      var diffMs := expiry.ms - now;
      if diffMs <= 0 then "Expired"
      else
        var diffMins := diffMs / MinuteMs;
        var text :=
          if diffMins < 60 then NatToString(diffMins) + " minute" + Plural(diffMins)
          else
            var hours := diffMins / 60;
            var mins := diffMins % 60;
            NatToString(hours) + " hour" + Plural(hours) + " " +
            (if mins > 0 then "and " + NatToString(mins) + " minute" + Plural(mins) else "");
        assert IsDigit(text[0]);
        text
  }

  /** The leading numeral of a string and what follows it. */
  function ReadNumber(s: string): Option<(nat, string)> {
    var a := DigitRun(s, 10);
    if a == [] then None else Some((DecimalValue(a), s[|a|..]))
  }

  /** Reads "<m> minute" or "<m> minutes" back to m. */
  function ReadMinutes(s: string): Option<nat> {
    match ReadNumber(s)
    case None => None
    case Some((m, rest)) => if rest == " minute" || rest == " minutes" then Some(m) else None
  }

  /** What follows the first numeral of a time-remaining text, given its value. */
  function ReadUnits(n: nat, rest: string): Option<nat> {
    if rest == " minute" || rest == " minutes" then Some(n)
    else if rest == " hour " || rest == " hours " then Some(60 * n)
    else if HasPrefix(rest, " hours and ") then
      match ReadMinutes(rest[11..]) case None => None case Some(m) => Some(60 * n + m)
    else if HasPrefix(rest, " hour and ") then
      match ReadMinutes(rest[10..]) case None => None case Some(m) => Some(60 * n + m)
    else None
  }

  /** Reads a time-remaining text back to its whole number of minutes. */
  function ReadTimeRemaining(s: string): Option<nat> {
    match ReadNumber(s)
    case None => None
    case Some((n, rest)) => ReadUnits(n, rest)
  }

  lemma {:induction false} DigitRunOfNumeral(a: string, b: string)
    requires AllDigits(a)
    requires b == [] || !IsDigit(b[0])
    ensures DigitRun(a + b, 10) == a
    decreases |a|
  {
    if a == [] {
      assert a + b == b;
    } else {
      assert (a + b)[0] == a[0];
      assert (a + b)[1..] == a[1..] + b;
      DigitRunOfNumeral(a[1..], b);
    }
  }

  /** The numeral the formatter writes is read back, with what follows it. */
  lemma ReadNumeral(n: nat, rest: string)
    requires rest == [] || !IsDigit(rest[0])
    ensures ReadNumber(NatToString(n) + rest) == Some((n, rest))
  {
    DigitRunOfNumeral(NatToString(n), rest);
    DecimalValueOfNatToString(n);
    var s := NatToString(n) + rest;
    assert s[|NatToString(n)|..] == rest;
  }

  lemma ReadMinutesText(m: nat)
    ensures ReadMinutes(NatToString(m) + " minute" + Plural(m)) == Some(m)
  {
    var rest := " minute" + Plural(m);
    assert NatToString(m) + " minute" + Plural(m) == NatToString(m) + rest;
    ReadNumeral(m, rest);
  }

  lemma ReadShortText(k: nat)
    ensures ReadTimeRemaining(NatToString(k) + " minute" + Plural(k)) == Some(k)
  {
    var rest := " minute" + Plural(k);
    assert NatToString(k) + " minute" + Plural(k) == NatToString(k) + rest;
    ReadNumeral(k, rest);
  }

  lemma ReadWholeHoursText(h: nat)
    ensures ReadTimeRemaining(NatToString(h) + " hour" + Plural(h) + " " + "") == Some(60 * h)
  {
    var rest := " hour" + Plural(h) + " ";
    assert NatToString(h) + " hour" + Plural(h) + " " + "" == NatToString(h) + rest;
    ReadNumeral(h, rest);
    if h != 1 {
      assert rest == " hours ";
    } else {
      assert rest == " hour ";
    }
  }

  lemma ReadHoursUnits(h: nat, m: nat, tail: string)
    requires ReadMinutes(tail) == Some(m) && |tail| > 0
    ensures ReadUnits(h, " hour" + Plural(h) + " and " + tail) == Some(60 * h + m)
  {
    var rest := " hour" + Plural(h) + " and " + tail;
    assert |rest| > 8;
    if h != 1 {
      assert rest == " hours and " + tail;
      assert rest[..11] == " hours and " && rest[11..] == tail;
    } else {
      assert rest == " hour and " + tail;
      assert rest[..10] == " hour and " && rest[10..] == tail;
      assert rest[5] != " hours and "[5];
      assert !HasPrefix(rest, " hours and ");
    }
  }

  lemma HoursTextSplits(a: string, x: string, b: string, y: string)
    ensures a + " hour" + x + " " + ("and " + b + " minute" + y) == a + (" hour" + x + " and " + (b + " minute" + y))
  {
  }

  lemma ReadHoursText(h: nat, m: nat)
    ensures ReadTimeRemaining(NatToString(h) + " hour" + Plural(h) + " " +
                              ("and " + NatToString(m) + " minute" + Plural(m))) == Some(60 * h + m)
  {
    var tail := NatToString(m) + " minute" + Plural(m);
    var rest := " hour" + Plural(h) + " and " + tail;
    HoursTextSplits(NatToString(h), Plural(h), NatToString(m), Plural(m));
    ReadNumeral(h, rest);
    ReadMinutesText(m);
    ReadHoursUnits(h, m, tail);
  }

  /** The text of a file that has not expired states exactly how many whole
      minutes remain: reading it back gives floor(diffMs / 60000). */
  lemma ReadTimeRemainingInverts(expiry: int, now: int)
    requires expiry - now > 0
    ensures ReadTimeRemaining(GetTimeRemaining(At(expiry), now)) == Some((expiry - now) / MinuteMs)
  {
    var diffMins := (expiry - now) / MinuteMs;
    var text := GetTimeRemaining(At(expiry), now);
    if diffMins < 60 {
      assert text == NatToString(diffMins) + " minute" + Plural(diffMins);
      ReadShortText(diffMins);
    } else {
      var hours := diffMins / 60;
      var mins := diffMins % 60;
      assert diffMins == 60 * hours + mins;
      if mins > 0 {
        assert text == NatToString(hours) + " hour" + Plural(hours) + " " +
          ("and " + NatToString(mins) + " minute" + Plural(mins));
        ReadHoursText(hours, mins);
      } else {
        assert text == NatToString(hours) + " hour" + Plural(hours) + " " + "";
        ReadWholeHoursText(hours);
      }
    }
  }

  /** Two files that have not expired show the same text exactly when the
      same whole number of minutes remains for each. */
  lemma GetTimeRemainingDistinguishesMinutes(e1: int, e2: int, now: int)
    requires e1 - now > 0 && e2 - now > 0
    ensures GetTimeRemaining(At(e1), now) == GetTimeRemaining(At(e2), now) <==>
      (e1 - now) / MinuteMs == (e2 - now) / MinuteMs
  {
    ReadTimeRemainingInverts(e1, now);
    ReadTimeRemainingInverts(e2, now);
  }

  /** Under a minute left reads "0 minutes", and exactly one reads "1 minute". */
  lemma GetTimeRemainingMinuteExamples(now: int)
    ensures GetTimeRemaining(At(now + 59999), now) == "0 minutes"
    ensures GetTimeRemaining(At(now + 60000), now) == "1 minute"
  {
    assert (now + 59999 - now) / MinuteMs == 0;
    assert (now + 60000 - now) / MinuteMs == 1;
    assert NatToString(0) == "0";
    assert NatToString(1) == "1";
  }

  /** A whole number of hours keeps a trailing space. */
  lemma GetTimeRemainingWholeHourExample(now: int)
    ensures GetTimeRemaining(At(now + 3600000), now) == "1 hour "
  {
    assert (now + 3600000 - now) / MinuteMs == 60;
    assert 60 / 60 == 1 && 60 % 60 == 0;
    assert NatToString(1) == "1";
    assert Plural(1) == "";
    assert NatToString(1) + " hour" + Plural(1) + " " + "" == "1 hour ";
  }

  /** Hours and minutes are joined by "and". */
  lemma GetTimeRemainingHourMinuteExample(now: int)
    ensures GetTimeRemaining(At(now + 3660000), now) == "1 hour and 1 minute"
  {
    assert (now + 3660000 - now) / MinuteMs == 61;
    assert 61 / 60 == 1 && 61 % 60 == 1;
    assert NatToString(1) == "1";
    assert Plural(1) == "";
    assert NatToString(1) + " hour" + Plural(1) + " " + ("and " + NatToString(1) + " minute" + Plural(1)) ==
      "1 hour and 1 minute";
  }

  // ---------------------------------------------------------------------------
  // createFileCard: expiry label and the received card's download button.

  datatype Expiry = NoExpiry | ExpiredLabel | Remaining(critical: bool, text: string)

  /** The expiry block of a card, at time `now`. */
  function ClassifyExpiry(expiresAt: Stamp, now: int): (e: Expiry)
    ensures e == NoExpiry <==> expiresAt.Missing?
    ensures e == ExpiredLabel <==> expiresAt.At? && expiresAt.ms - now <= 0
    ensures e.Remaining? && e.critical <==> expiresAt.At? && 0 < expiresAt.ms - now < CriticalMs
    ensures e.Remaining? ==> e.text == GetTimeRemaining(expiresAt, now)
  {
    if expiresAt.Missing? then NoExpiry
    else if expiresAt.At? && expiresAt.ms - now <= 0 then ExpiredLabel
    else Remaining(expiresAt.At? && expiresAt.ms - now < CriticalMs, GetTimeRemaining(expiresAt, now))
  }

  /** The received card's button: `new Date() > new Date(file.expiresAt)`. */
  predicate DownloadDisabled(expiresAt: Stamp, now: int) {
    expiresAt.At? && now > expiresAt.ms
  }

  /** A disabled button is always on a card labelled expired; a card labelled
      expired has its button disabled except at the very millisecond of
      expiry, where the label says "Expired" and the button still works. */
  lemma DownloadButtonAgainstLabel(expiresAt: Stamp, now: int)
    ensures DownloadDisabled(expiresAt, now) ==> ClassifyExpiry(expiresAt, now) == ExpiredLabel
    ensures ClassifyExpiry(expiresAt, now) == ExpiredLabel ==>
      (DownloadDisabled(expiresAt, now) <==> expiresAt.ms != now)
  {
  }

  /** createFileCard reads the clock separately for the label and for the
      button. With the label read at `t1` and the button at a later `t2`, an
      expired label still goes with a disabled button (except when `t2` is
      the expiry itself), but a card whose label was read just before expiry
      can carry a button disabled just after it. */
  lemma LabelAndButtonReadApart(e: int, t1: int, t2: int)
    requires t1 <= t2
    ensures ClassifyExpiry(At(e), t1) == ExpiredLabel && t2 != e ==> DownloadDisabled(At(e), t2)
    ensures t1 < e < t2 ==> ClassifyExpiry(At(e), t1).Remaining? && DownloadDisabled(At(e), t2)
  {
  }

  // ---------------------------------------------------------------------------
  // The download modal.

  /** The digits of a string, in order: `replace(/[^0-9]/g, '')`. */
  function DigitsOf(s: string): (r: string)
    ensures AllDigits(r) && |r| <= |s|
    ensures AllDigits(s) ==> r == s
  {
    if s == [] then []
    else (if IsDigit(s[0]) then [s[0]] else []) + DigitsOf(s[1..])
  }

  /** The value the passcode field's input handler leaves: the digits typed,
      cut to six. */
  function SanitizePasscodeInput(v: string): (r: string)
    ensures AllDigits(r) && |r| <= 6
    ensures HasPrefix(DigitsOf(v), r)
    ensures |r| == if |DigitsOf(v)| > 6 then 6 else |DigitsOf(v)|
  {
    var digits := DigitsOf(v);
    if |digits| > 6 then digits[..6] else digits
  }

  /** Running the handler on its own output changes nothing. */
  lemma SanitizePasscodeInputIdempotent(v: string)
    ensures SanitizePasscodeInput(SanitizePasscodeInput(v)) == SanitizePasscodeInput(v)
  {
  }

  /** A well-formed passcode is left as typed. */
  lemma SanitizePasscodeInputKeepsPasscode(v: string)
    requires Passcode.ValidatePasscodeFormat(v)
    ensures SanitizePasscodeInput(v) == v
  {
  }

  /** The modal's passcode field. */
  class PasscodeField {
    var value: string

    constructor (initial: string)
      ensures value == initial
    {
      value := initial;
    }

    /** The 'input' listener: keep the digits, then cut to six. */
    method OnInput()
      modifies this
      ensures value == SanitizePasscodeInput(old(value))
    {
      value := DigitsOf(value);
      if |value| > 6 {
        value := value[..6];
      }
    }
  }

  datatype FormCheck = FormRejected(message: string) | FormAccepted(passcode: string)

  const EnterPasscode := "Please enter a passcode"
  const SixDigits := "Passcode must be 6 digits"

  /** The modal's submit handler, before it calls the API: the trimmed value
      must be non-empty and six UTF-16 code units long. */
  function CheckDownloadForm(value: string): (r: FormCheck)
    ensures Trim(value) == "" <==> r == FormRejected(EnterPasscode)
    ensures r.FormAccepted? <==> Utf16Length(Trim(value)) == 6
    ensures r.FormAccepted? ==> r.passcode == Trim(value)
  {
    var passcode := Trim(value);
    if passcode == "" then FormRejected(EnterPasscode)
    else if Utf16Length(passcode) != 6 then FormRejected(SixDigits)
    else FormAccepted(passcode)
  }

  /** What the field holds after typing: `maxlength="6"` stops the field at
      six characters. */
  function MaxLengthCut(typed: string): (r: string)
    ensures |r| <= 6 && HasPrefix(typed, r)
    ensures |typed| <= 6 ==> r == typed
  {
    if |typed| > 6 then typed[..6] else typed
  }

  datatype SubmitOutcome = PatternMismatch | Handled(check: FormCheck)

  /** Submitting the modal's form: the browser first checks the field against
      `required` and `pattern="[0-9]{6}"` and reports a mismatch without
      firing the submit event; only a value it accepts reaches the handler,
      which then always accepts it. */
  function SubmitDownloadForm(value: string): (r: SubmitOutcome)
    ensures r.Handled? <==> Passcode.ValidatePasscodeFormat(value)
    ensures r.Handled? ==> r.check == FormAccepted(value)
  {
    if |value| == 6 && AllDigits(value) then
      DigitsAreClean(value);
      Handled(CheckDownloadForm(value))
    else PatternMismatch
  }

  /** With the input listener on the field the form submits, the form
      submits exactly when at least six digits were typed, and what it
      submits is the first six of them, a well-formed passcode. */
  lemma SanitizedFieldSubmits(v: string)
    ensures SubmitDownloadForm(SanitizePasscodeInput(v)).Handled? <==> |DigitsOf(v)| >= 6
    ensures SubmitDownloadForm(SanitizePasscodeInput(v)).Handled? ==>
      SubmitDownloadForm(SanitizePasscodeInput(v)).check == FormAccepted(DigitsOf(v)[..6]) &&
      Passcode.ValidatePasscodeFormat(DigitsOf(v)[..6])
  {
  }

  /** A string of digits has no whitespace to trim, and each digit is one
      UTF-16 unit. */
  lemma DigitsAreClean(r: string)
    requires AllDigits(r)
    ensures Trim(r) == r && Utf16Length(r) == |r|
  {
    assert r == [] || !IsJsSpace(r[0]);
    TrimStartOfClean(r);
    assert r == [] || !IsJsSpace(r[|r| - 1]);
    TrimEndOfClean(r);
    assert forall i :: 0 <= i < |r| ==> r[i] as int < 0x10000;
  }

  /** The form as the modal wires it: the input listener is attached to the
      field of the original form, and that form is then replaced by a clone,
      which keeps the field's attributes but carries no listeners. Nothing
      strips what is typed, so the form submits only what was typed as a
      passcode exactly; a stray letter in "12a3456" leaves "12a345" in the
      field and the browser reports a pattern mismatch, where the listener
      would have left "123456" and submitted it. */
  lemma UnsanitizedFieldSubmits(typed: string)
    ensures SubmitDownloadForm(MaxLengthCut(typed)).Handled? <==> Passcode.ValidatePasscodeFormat(MaxLengthCut(typed))
    ensures MaxLengthCut("12a3456") == "12a345"
    ensures SubmitDownloadForm(MaxLengthCut("12a3456")) == PatternMismatch
    ensures SubmitDownloadForm(SanitizePasscodeInput("12a3456")) == Handled(FormAccepted("123456"))
  {
    assert "12a3456"[..6] == "12a345";
    assert "12a345"[2] == 'a';
    TypedValueSanitized();
  }

  /** The listener turns "12a3456" into the six digits "123456". */
  lemma TypedValueSanitized()
    ensures SanitizePasscodeInput("12a3456") == "123456"
  {
    var typed := "12a3456";
    assert typed == "12" + "a" + "3456";
    StrayCharDropped("12", 'a', "3456");
    assert "12" + "3456" == "123456";
  }

  /** A single non-digit between two runs of digits is dropped. */
  lemma StrayCharDropped(a: string, x: char, b: string)
    requires AllDigits(a) && AllDigits(b) && !IsDigit(x)
    ensures DigitsOf(a + [x] + b) == a + b
  {
    var ax := a + [x];
    DigitsOfAppend(ax, b);
    DigitsOfAppend(a, [x]);
    assert DigitsOf([x]) == [] + DigitsOf([]);
    assert DigitsOf(ax) == a;
  }

  /** The digits of a concatenation are the digits of each part. */
  lemma {:induction false} DigitsOfAppend(a: string, b: string)
    ensures DigitsOf(a + b) == DigitsOf(a) + DigitsOf(b)
  {
    if a == [] {
      assert a + b == b;
    } else {
      assert (a + b)[0] == a[0];
      assert (a + b)[1..] == a[1..] + b;
      DigitsOfAppend(a[1..], b);
    }
  }

  // ---------------------------------------------------------------------------
  // New files since the last check.

  /** The received files stamped strictly after `last`, in order. A missing
      or unparsable createdAt never counts. */
  function NewSince(files: seq<ClientFile>, last: int): (r: seq<ClientFile>)
    ensures |r| <= |files|
  {
    if files == [] then []
    else
      (if files[0].createdAt.At? && files[0].createdAt.ms > last then [files[0]] else []) +
      NewSince(files[1..], last)
  }

  /** The filter keeps exactly the files created after the last check. */
  lemma {:induction false} NewSinceCharacterised(files: seq<ClientFile>, last: int)
    ensures forall i :: 0 <= i < |NewSince(files, last)| ==>
      NewSince(files, last)[i] in files &&
      NewSince(files, last)[i].createdAt.At? && NewSince(files, last)[i].createdAt.ms > last
    ensures forall i :: 0 <= i < |files| && files[i].createdAt.At? && files[i].createdAt.ms > last ==>
      files[i] in NewSince(files, last)
  {
    if files != [] {
      NewSinceCharacterised(files[1..], last);
      forall i | 0 <= i < |files| && files[i].createdAt.At? && files[i].createdAt.ms > last
        ensures files[i] in NewSince(files, last)
      {
        if i > 0 {
          assert files[i] == files[1..][i - 1];
        }
      }
    }
  }

  /** A later check never reports more files than an earlier one. */
  lemma {:induction false} NewSinceMonotone(files: seq<ClientFile>, earlier: int, later: int)
    requires earlier <= later
    ensures |NewSince(files, later)| <= |NewSince(files, earlier)|
  {
    if files != [] {
      NewSinceMonotone(files[1..], earlier, later);
    }
  }

  /** parseInt(localStorage.getItem('lastFileCheck') || 0): None is NaN. */
  function LastCheckValue(stored: Option<string>): Option<int> {
    if !Truthy(stored) then Some(0) else ParseInt(stored.value)
  }

  /** The stamp the client stores, Date.now().toString(), reads back. */
  lemma LastCheckRoundTrip(now: nat)
    ensures LastCheckValue(Some(NatToString(now))) == Some(now)
  {
    ParseIntOfNatToString(now);
  }

  datatype NewFileCheck = NewFilesFound(files: seq<ClientFile>) | CheckReset

  /** checkForNewFiles, once the received list is in: nothing to do for an
      empty list; an unparsable stored check is reset to "0" and nothing is
      flagged; otherwise the files created after it. */
  function CheckForNewFiles(received: seq<ClientFile>, stored: Option<string>): (r: NewFileCheck)
    ensures r == CheckReset <==> received != [] && LastCheckValue(stored).None?
    ensures received == [] ==> r == NewFilesFound([])
    ensures r.NewFilesFound? && received != [] ==> r.files == NewSince(received, LastCheckValue(stored).value)
  {
    if received == [] then NewFilesFound([])
    else
      match LastCheckValue(stored)
      case None => CheckReset
      case Some(last) => NewFilesFound(NewSince(received, last))
  }

  /** The toast for `n` new files. */
  function NewFilesToast(n: nat): string {
    "You have " + NatToString(n) + " new file" + (if n == 1 then "" else "s") + "!"
  }

  lemma NewFilesToastExamples()
    ensures NewFilesToast(1) == "You have 1 new file!"
    ensures NewFilesToast(2) == "You have 2 new files!"
  {
    assert NatToString(1) == "1";
    assert NatToString(2) == "2";
  }
}
