/** The page logic of the client application (the App object): the checks the
    upload form runs before it calls the API, and the received-files panel
    that loadFiles rebuilds, with its new-file marking and the stored time of
    the last check. The clock and the API's reply are parameters. */
module App {
  import opened Common
  import Passcode
  import FileRoutes
  import Ui

  // ---------------------------------------------------------------------------
  // handleFileUpload.

  const SelectFile := "Please select a file"
  const EnterReceiver := "Please enter a receiver address"
  const ReceiverInvalid := "Receiver address appears to be invalid"
  const BadPasscode := "Please enter a valid 6-digit passcode"

  /** The shortest receiver address the form lets through, in UTF-16 units. */
  const MinReceiverLength: nat := 10

  /** The outcome of the form checks: blocked with the toast shown (None when
      the user declined the unverified-address confirmation, which shows
      none), or ready to upload with the trimmed values. */
  datatype UploadCheck = UploadBlocked(toast: Option<string>) | UploadReady(receiverAddress: string, passcode: string)

  /** `!passcode || passcode.length !== 6 || !/^\d{6}$/.test(passcode)`. */
  predicate PasscodeRejected(passcode: string) {
    passcode == "" || Utf16Length(passcode) != 6 || !(|passcode| == 6 && AllDigits(passcode))
  }

  /** The checks of handleFileUpload, in the order it runs them. `fileCount`
      is the number of files chosen; `verified` is the receiver field's
      data-verified flag; `confirmed` is the answer the confirm dialog would
      give, and it is asked only for an unverified address. */
  function CheckUploadForm(fileCount: nat, receiverInput: string, passcodeInput: string,
                           verified: bool, confirmed: bool): (r: UploadCheck)
    ensures fileCount == 0 ==> r == UploadBlocked(Some(SelectFile))
    ensures fileCount > 0 && Trim(receiverInput) == "" ==> r == UploadBlocked(Some(EnterReceiver))
    ensures (fileCount > 0 && Trim(receiverInput) != "" && Utf16Length(Trim(receiverInput)) < MinReceiverLength) ==>
      r == UploadBlocked(Some(ReceiverInvalid))
    ensures (fileCount > 0 && Utf16Length(Trim(receiverInput)) >= MinReceiverLength && !verified && !confirmed) ==>
      r == UploadBlocked(None)
    ensures r.UploadReady? <==>
      (fileCount > 0 && Utf16Length(Trim(receiverInput)) >= MinReceiverLength && (verified || confirmed) &&
       Passcode.ValidatePasscodeFormat(Trim(passcodeInput)))
    ensures r.UploadReady? ==> r.receiverAddress == Trim(receiverInput) && r.passcode == Trim(passcodeInput)
    ensures r == UploadBlocked(Some(BadPasscode)) <==>
      (fileCount > 0 && Utf16Length(Trim(receiverInput)) >= MinReceiverLength && (verified || confirmed) &&
       !Passcode.ValidatePasscodeFormat(Trim(passcodeInput)))
  {
    var receiverAddress := Trim(receiverInput);
    var passcode := Trim(passcodeInput);
    if fileCount == 0 then UploadBlocked(Some(SelectFile))
    else if receiverAddress == "" then UploadBlocked(Some(EnterReceiver))
    else if Utf16Length(receiverAddress) < MinReceiverLength then UploadBlocked(Some(ReceiverInvalid))
    else if !verified && !confirmed then UploadBlocked(None)
    else if PasscodeRejected(passcode) then UploadBlocked(Some(BadPasscode))
    else UploadReady(receiverAddress, passcode)
  }

  /** What the form lets through is accepted by both backends' input checks:
      the passcode is a six-digit code the Mongo-backed route takes, both
      values are non-empty as the in-memory server demands, and trimming them
      again on the server changes nothing. */
  lemma ReadyFormAccepted(fileCount: nat, receiverInput: string, passcodeInput: string,
                          verified: bool, confirmed: bool)
    requires CheckUploadForm(fileCount, receiverInput, passcodeInput, verified, confirmed).UploadReady?
    ensures var r := CheckUploadForm(fileCount, receiverInput, passcodeInput, verified, confirmed);
      FileRoutes.PasscodeAccepted(Some(r.passcode)) &&
      Truthy(Some(r.receiverAddress)) && Truthy(Some(r.passcode)) &&
      |r.receiverAddress| >= 5 &&
      Trim(r.receiverAddress) == r.receiverAddress && Trim(r.passcode) == r.passcode
  {
    var r := CheckUploadForm(fileCount, receiverInput, passcodeInput, verified, confirmed);
    TrimIdempotent(receiverInput);
    TrimIdempotent(passcodeInput);
    Utf16LengthBound(r.receiverAddress);
  }

  /** Each character is at most two UTF-16 units. */
  lemma {:induction false} Utf16LengthBound(s: string)
    ensures Utf16Length(s) <= 2 * |s|
  {
    if s != [] {
      Utf16LengthBound(s[1..]);
    }
  }

  // ---------------------------------------------------------------------------
  // loadFiles: the received-files panel.

  /** `receivedResult.success ? (files || data || []) : []`. An empty array
      is truthy, so a present `files` wins even when it is empty. */
  function ReceivedList(success: bool, files: Option<seq<Ui.ClientFile>>, data: Option<seq<Ui.ClientFile>>)
    : (r: seq<Ui.ClientFile>)
    ensures !success ==> r == []
    ensures success && files.Some? ==> r == files.value
    ensures success && files.None? ==> r == (if data.Some? then data.value else [])
  {
    if !success then [] else if files.Some? then files.value else if data.Some? then data.value else []
  }

  /** `forceRefresh ? 0 : (localStorage.getItem('lastFileCheck') || 0)`,
      passed through parseInt; None is NaN. */
  function LastCheckTime(forceRefresh: bool, stored: Option<string>): (r: Option<int>)
    ensures forceRefresh ==> r == Some(0)
    ensures !forceRefresh ==> r == Ui.LastCheckValue(stored)
  {
    if forceRefresh then Some(0) else Ui.LastCheckValue(stored)
  }

  /** The files loadFiles counts as new: stamped strictly after the last
      check. Against NaN every comparison is false, so nothing is new. */
  function NewFiles(received: seq<Ui.ClientFile>, forceRefresh: bool, stored: Option<string>)
    : (r: seq<Ui.ClientFile>)
    ensures LastCheckTime(forceRefresh, stored).None? ==> r == []
    ensures LastCheckTime(forceRefresh, stored).Some? ==>
      r == Ui.NewSince(received, LastCheckTime(forceRefresh, stored).value)
  {
    match LastCheckTime(forceRefresh, stored)
    case None => []
    case Some(last) => Ui.NewSince(received, last)
  }

  /** `file.id || file._id`: an absent or empty id falls back to `_id`. */
  function Key(f: Ui.ClientFile): (k: Option<string>)
    ensures Truthy(f.id) ==> k == f.id
    ensures !Truthy(f.id) ==> k == f.mongoId
  {
    if Truthy(f.id) then f.id else f.mongoId
  }

  /** `newFiles.some(nf => (nf.id || nf._id) === (file.id || file._id))`. */
  function MarkedNew(newFiles: seq<Ui.ClientFile>, f: Ui.ClientFile): (b: bool)
    ensures b <==> exists i :: 0 <= i < |newFiles| && Key(newFiles[i]) == Key(f)
  {
    if newFiles == [] then false
    else Key(newFiles[0]) == Key(f) || MarkedNew(newFiles[1..], f)
  }

  /** A received file's card: its expiry block, whether the download button
      is disabled, and whether it carries the "new" mark. */
  datatype Card = Card(file: Ui.ClientFile, expiry: Ui.Expiry, downloadDisabled: bool, isNew: bool)

  function CardFor(f: Ui.ClientFile, newFiles: seq<Ui.ClientFile>, now: int): (c: Card)
    ensures c.file == f && c.isNew == MarkedNew(newFiles, f)
    ensures c.expiry == Ui.ClassifyExpiry(f.expiresAt, now)
    ensures c.downloadDisabled == Ui.DownloadDisabled(f.expiresAt, now)
  {
    Card(f, Ui.ClassifyExpiry(f.expiresAt, now), Ui.DownloadDisabled(f.expiresAt, now), MarkedNew(newFiles, f))
  }

  /** The toast a forced refresh ends with. */
  const FilesRefreshed := "Files refreshed successfully"

  /** The received-files panel and the state loadFiles keeps beside it:
      localStorage's lastFileCheck, the count on the navigation badge, and
      the toasts shown so far. */
  class FilesPage {
    var cards: seq<Card>
    var placeholder: bool
    var lastFileCheck: Option<string>
    var badge: Option<nat>
    var toasts: seq<string>

    constructor (stored: Option<string>)
      ensures cards == [] && !placeholder && lastFileCheck == stored && badge == None && toasts == []
    {
      cards := [];
      placeholder := false;
      lastFileCheck := stored;
      badge := None;
      toasts := [];
    }

    /** loadFiles once the API has answered, at time `now`, as it bears on
        the received panel: remove the badge; clear the panel; with no files
        show the placeholder; otherwise announce the new files, add one card
        per file in order, and store the time of this check only when nothing
        was new or the refresh was forced; last, a forced refresh says so. */
    method ShowReceived(success: bool, files: Option<seq<Ui.ClientFile>>, data: Option<seq<Ui.ClientFile>>,
                        forceRefresh: bool, now: nat)
      modifies this
      ensures var received := ReceivedList(success, files, data);
        var found := NewFiles(received, forceRefresh, old(lastFileCheck));
        var refreshed := if forceRefresh then [FilesRefreshed] else [];
        badge == (if received != [] && found != [] then Some(|found|) else None) &&
        (received == [] ==>
          (cards == [] && placeholder && lastFileCheck == old(lastFileCheck) &&
           toasts == old(toasts) + refreshed)) &&
        (received != [] ==>
          (!placeholder &&
           |cards| == |received| &&
           (forall i :: 0 <= i < |received| ==> cards[i] == CardFor(received[i], found, now)) &&
           toasts == old(toasts) + (if found != [] then [Ui.NewFilesToast(|found|)] else []) + refreshed &&
           lastFileCheck == (if found == [] || forceRefresh then Some(NatToString(now)) else old(lastFileCheck))))
    {
      badge := None;
      var received := ReceivedList(success, files, data);
      cards := [];
      if received == [] {
        placeholder := true;
        if forceRefresh {
          toasts := toasts + [FilesRefreshed];
        }
        return;
      }
      placeholder := false;
      var found := NewFiles(received, forceRefresh, lastFileCheck);
      if found != [] {
        toasts := toasts + [Ui.NewFilesToast(|found|)];
        badge := Some(|found|);
      }
      cards := BuildCards(received, found, now);
      if found == [] || forceRefresh {
        lastFileCheck := Some(NatToString(now));
      }
      if forceRefresh {
        toasts := toasts + [FilesRefreshed];
      }
    }
  }

  /** The forEach that renders the received files: one card per file, in
      order. */
  method BuildCards(received: seq<Ui.ClientFile>, found: seq<Ui.ClientFile>, now: nat) returns (built: seq<Card>)
    ensures |built| == |received|
    ensures forall i :: 0 <= i < |received| ==> built[i] == CardFor(received[i], found, now)
  {
    built := [];
    var i := 0;
    while i < |received|
      invariant 0 <= i <= |received|
      invariant |built| == i
      invariant forall j :: 0 <= j < i ==> built[j] == CardFor(received[j], found, now)
    {
      built := built + [CardFor(received[i], found, now)];
      i := i + 1;
    }
  }

  /** Every file counted as new has its card marked. */
  lemma NewFilesMarked(received: seq<Ui.ClientFile>, forceRefresh: bool, stored: Option<string>, now: int, i: nat)
    requires i < |received| && received[i] in NewFiles(received, forceRefresh, stored)
    ensures CardFor(received[i], NewFiles(received, forceRefresh, stored), now).isNew
  {
    var found := NewFiles(received, forceRefresh, stored);
    var k :| 0 <= k < |found| && found[k] == received[i];
    assert Key(found[k]) == Key(received[i]);
  }

  /** A card is marked exactly when its key is the key of a file stamped
      after the last check (which need not be the file itself). */
  lemma MarkedIffKeyStampedAfter(received: seq<Ui.ClientFile>, last: int, f: Ui.ClientFile)
    ensures MarkedNew(Ui.NewSince(received, last), f) <==>
      exists j :: 0 <= j < |received| && received[j].createdAt.At? && received[j].createdAt.ms > last &&
                  Key(received[j]) == Key(f)
  {
    var found := Ui.NewSince(received, last);
    Ui.NewSinceCharacterised(received, last);
    if MarkedNew(found, f) {
      var k :| 0 <= k < |found| && Key(found[k]) == Key(f);
      var j :| 0 <= j < |received| && received[j] == found[k];
      assert received[j].createdAt.At? && received[j].createdAt.ms > last && Key(received[j]) == Key(f);
    }
    if exists j :: 0 <= j < |received| && received[j].createdAt.At? && received[j].createdAt.ms > last &&
                   Key(received[j]) == Key(f) {
      var j :| 0 <= j < |received| && received[j].createdAt.At? && received[j].createdAt.ms > last &&
               Key(received[j]) == Key(f);
      assert received[j] in found;
      var k :| 0 <= k < |found| && found[k] == received[j];
      assert Key(found[k]) == Key(f);
    }
  }

  /** Files with neither an id nor an _id share a key, so when one of them is
      new, an old one is marked new as well. */
  lemma KeylessFilesMarkedTogether(oldStamp: int, newStamp: int, last: int)
    requires oldStamp <= last < newStamp
    ensures var older := Ui.ClientFile(None, None, Ui.At(oldStamp), Ui.Missing);
      var newer := Ui.ClientFile(None, None, Ui.At(newStamp), Ui.Missing);
      Ui.NewSince([older, newer], last) == [newer] &&
      MarkedNew(Ui.NewSince([older, newer], last), older)
  {
    var older := Ui.ClientFile(None, None, Ui.At(oldStamp), Ui.Missing);
    var newer := Ui.ClientFile(None, None, Ui.At(newStamp), Ui.Missing);
    assert [older, newer][1..] == [newer];
    assert [newer][1..] == [];
  }

  /** The two new-file filters agree whenever the stored check parses: the
      panel counts as new exactly what the periodic check reports. Where it
      does not parse, the periodic check resets it and the panel counts
      nothing. */
  lemma NewFilesAgreesWithCheck(received: seq<Ui.ClientFile>, stored: Option<string>)
    requires received != []
    ensures Ui.LastCheckValue(stored).Some? ==>
      Ui.CheckForNewFiles(received, stored) == Ui.NewFilesFound(NewFiles(received, false, stored))
    ensures Ui.LastCheckValue(stored).None? ==>
      Ui.CheckForNewFiles(received, stored) == Ui.CheckReset && NewFiles(received, false, stored) == []
  {
  }

  /** Once the check time has been stored at `now`, no file stamped at or
      before `now` counts as new on the next load. */
  lemma StoredCheckClearsOlder(received: seq<Ui.ClientFile>, now: nat)
    requires forall i :: 0 <= i < |received| && received[i].createdAt.At? ==> received[i].createdAt.ms <= now
    ensures NewFiles(received, false, Some(NatToString(now))) == []
  {
    Ui.LastCheckRoundTrip(now);
    NothingSince(received, now);
  }

  lemma {:induction false} NothingSince(files: seq<Ui.ClientFile>, last: int)
    requires forall i :: 0 <= i < |files| && files[i].createdAt.At? ==> files[i].createdAt.ms <= last
    ensures Ui.NewSince(files, last) == []
  {
    if files != [] {
      assert forall i :: 0 <= i < |files[1..]| ==> files[1..][i] == files[i + 1];
      NothingSince(files[1..], last);
    }
  }

  /** Two loads at `t1` and `t2`. When the first finds new files and the
      refresh is not forced, the stored check is left alone, so the second
      load flags the same files again. */
  method ReloadScenario(received: seq<Ui.ClientFile>, stored: Option<string>, t1: nat, t2: nat)
    returns (first: seq<Card>, second: seq<Card>)
    requires NewFiles(received, false, stored) != []
    ensures |first| == |second| == |received|
    ensures forall i :: 0 <= i < |received| ==> first[i].isNew == second[i].isNew
    ensures forall i :: 0 <= i < |received| && received[i] in NewFiles(received, false, stored) ==> second[i].isNew
  {
    assert received != [];
    var page := new FilesPage(stored);
    page.ShowReceived(true, Some(received), None, false, t1);
    assert page.lastFileCheck == stored;
    first := page.cards;
    page.ShowReceived(true, Some(received), None, false, t2);
    second := page.cards;
    forall i | 0 <= i < |received| && received[i] in NewFiles(received, false, stored)
      ensures second[i].isNew
    {
      NewFilesMarked(received, false, stored, t2, i);
    }
  }
}
