/** `MaildirWriter`: one Maildir mailbox, the names of the message files it
    writes into `cur`, and the counter that keeps those names unique. The
    file system is modelled by what the writer records: the directories it
    creates, the text of each file it writes, and the time each file's
    timestamps are set to. */
module Maildir {
  import opened Text
  import opened MapiProps
  import opened Mail
  import opened Translation
  import opened LineEnds

  // ---------------------------------------------------------------------
  // Mailbox naming (lines 29-52)

  /** `newFolderTitle.Replace(".", "_")`: `.` separates IMAP folder levels. */
  function EscapeTitle(title: string): (r: string)
    ensures |r| == |title| && '.' !in r
    ensures forall i :: 0 <= i < |title| ==> r[i] == (if title[i] == '.' then '_' else title[i])
  {
    ReplaceCharByChar(title, '.', '_');
    ReplaceAll(title, ".", "_")
  }

  /** The mailbox of a folder: the parent path, a dot, and the escaped title. */
  function MailboxPath(parent: string, title: string): string {
    parent + "." + EscapeTitle(title)
  }

  /** The mailbox path extends the parent by one level: what follows the
      parent and its dot has the title's length and holds no further dot. */
  lemma MailboxPathIsOneLevel(parent: string, title: string)
    ensures var p := MailboxPath(parent, title);
      StartsWith(p, parent + ".") && |p| == |parent| + 1 + |title| && '.' !in p[|parent| + 1..]
  {
    var p := MailboxPath(parent, title);
    assert p[|parent| + 1..] == EscapeTitle(title);
    assert p[..|parent + "."|] == parent + ".";
  }

  /** Titles that differ only in `.` against `_` share a mailbox. */
  lemma TitlesCanShareMailbox()
    ensures MailboxPath("", "a.b") == MailboxPath("", "a_b")
  {
    var x := EscapeTitle("a.b");
    var y := EscapeTitle("a_b");
    assert x == "a_b" by { assert |x| == 3 && x[0] == 'a' && x[1] == '_' && x[2] == 'b'; }
    assert y == "a_b" by { assert |y| == 3 && y[0] == 'a' && y[1] == '_' && y[2] == 'b'; }
  }

  /** `Path.Combine(a, b)` for a relative `b`. */
  function Combine(a: string, b: string): (r: string)
    ensures a == [] ==> r == b
    ensures a != [] ==> StartsWith(r, a) && |r| >= |b| && r[|r| - |b|..] == b
  {
    if a == [] then b
    else if a[|a| - 1] == '\\' || a[|a| - 1] == '/' || a[|a| - 1] == ':' then a + b
    else a + "\\" + b
  }

  // ---------------------------------------------------------------------
  // Message file names (lines 107-130)

  /** `flags & MSGFLAG_READ` and `flags & MSGFLAG_UNSENT` on the two's
      complement 32-bit value (`%` here never goes negative). */
  const MSGFLAG_READ: nat := 0x1
  const MSGFLAG_UNSENT: nat := 0x8

  predicate IsRead(flags: int32) { (flags % (2 * MSGFLAG_READ)) / MSGFLAG_READ == 1 }

  predicate IsUnsent(flags: int32) { (flags % (2 * MSGFLAG_UNSENT)) / MSGFLAG_UNSENT == 1 }

  /** A message without flags reads as `Int32.MinValue`, which has neither bit. */
  lemma AbsentFlagsAreClear()
    ensures !IsRead(INT32_MIN) && !IsUnsent(INT32_MIN)
  {
  }

  /** The Maildir info flags: `S` for a read message, then `D` for a draft. */
  function FlagSuffix(read: bool, draft: bool): (r: string)
    ensures r == "" || r == "S" || r == "D" || r == "SD"
    ensures 'S' in r <==> read
    ensures 'D' in r <==> draft
  {
    if read then (if draft then "SD" else "S") else (if draft then "D" else "")
  }

  /** `ticks.id.host;2,` and the flags. */
  function FileName(ticks: nat, id: nat, host: string, read: bool, draft: bool): string {
    NatToString(ticks) + "." + NatToString(id) + "." + host + ";2," + FlagSuffix(read, draft)
  }

  /** What follows the first `c` in `s`, if `s` holds one. */
  function After(s: string, c: char): Option<string> {
    if s == [] then None else if s[0] == c then Some(s[1..]) else After(s[1..], c)
  }

  /** What precedes the first `c` in `s`, if `s` holds one. */
  function Before(s: string, c: char): Option<string> {
    if s == [] then None
    else if s[0] == c then Some([])
    else match Before(s[1..], c)
      case None => None
      case Some(p) => Some([s[0]] + p)
  }

  /** The unique id a file name carries: the digits between its first and
      second dots. */
  function IdField(name: string): Option<nat> {
    match After(name, '.')
    case None => None
    case Some(rest) =>
      match Before(rest, '.')
      case None => None
      case Some(d) => if AllDigits(d) then Some(ParseDecimal(d)) else None
  }

  /** A run of digits is passed over up to the dot that ends it. */
  lemma {:induction false} DigitsThenDot(a: string, b: string)
    requires AllDigits(a)
    ensures After(a + "." + b, '.') == Some(b)
    ensures Before(a + "." + b, '.') == Some(a)
  {
    if a == [] {
      assert a + "." + b == ['.'] + b;
    } else {
      assert (a + "." + b)[1..] == a[1..] + "." + b;
      DigitsThenDot(a[1..], b);
      assert [a[0]] + a[1..] == a;
    }
  }

  /** A file name gives back the id it was made with, so names made with
      different ids differ. */
  lemma FileNameIdRoundTrip(ticks: nat, id: nat, host: string, read: bool, draft: bool)
    ensures IdField(FileName(ticks, id, host, read, draft)) == Some(id)
  {
    var t := NatToString(ticks);
    var d := NatToString(id);
    var tail := host + ";2," + FlagSuffix(read, draft);
    assert FileName(ticks, id, host, read, draft) == t + "." + (d + "." + tail);
    DigitsThenDot(t, d + "." + tail);
    DigitsThenDot(d, tail);
    ParseNatToString(id);
  }

  /** `name` carries an id, and it is at most `bound`. */
  predicate IdAtMost(name: string, bound: int) {
    IdField(name).Some? && IdField(name).value <= bound
  }

  /** A name made with an id above every id in use is not in use. */
  lemma FreshName(names: map<string, string>, bound: int, ticks: nat, id: nat, host: string, read: bool, draft: bool)
    requires forall n :: n in names ==> IdAtMost(n, bound)
    requires bound < id
    ensures FileName(ticks, id, host, read, draft) !in names
    ensures IdAtMost(FileName(ticks, id, host, read, draft), id)
  {
    FileNameIdRoundTrip(ticks, id, host, read, draft);
  }

  // ---------------------------------------------------------------------
  // Adding one message (lines 60-218)

  const NDR_CLASS := "REPORT.IPM.Note.NDR"
  const NOTE_CLASS := "IPM.Note"

  /** What the writer cannot compute itself: the host name, the current
      time's text, and the mail library's serialisation of a message. */
  datatype Env = Env(host: string, now: string, save: OutMessage -> string)

  function ConvertedHeader(env: Env): Header {
    Header("X-ConvertedFromMapi", "Adam Nelson's Mapi to Maildir Converter.  " + env.now)
  }

  /** The body given to a message class that is not converted. */
  function PlaceholderBody(cls: Option<string>): string
  {
    if cls == Some("IPM.Contact") then "Conversion of contacts isn't implemented yet"
    else if cls == Some("IPM.Calendar") then "Conversion of appointments isn't implemented yet"
    else if cls == Some("IPM.Task") || cls == Some("IPM.StickyNote") then
      "Conversion of tasks and notes isn't implemented yet"
    else "Conversion of this message class isn't implemented yet"
  }

  /** The receive time and the two flags, read before the counter moves.
      Any of the three typed fetches (time, size, flags) can throw. */
  datatype Stamp = Stamp(ticks: nat, read: bool, draft: bool)

  function ReadStamp(m: MapiMessage): (r: Outcome<Stamp>)
    ensures r.Threw? <==>
      GetSysTimeProperty(Slot(m, PtagMsgDeliveryTime)).InvalidCast?
      || GetLongProperty(Slot(m, PrMessageSize)).InvalidCast?
      || GetLongProperty(Slot(m, PrMessageFlags)).InvalidCast?
    ensures r.Ok? ==> r.value.ticks == GetSysTimeProperty(Slot(m, PtagMsgDeliveryTime)).value
    ensures r.Ok? ==> var flags := GetLongProperty(Slot(m, PrMessageFlags)).value;
      r.value.read == IsRead(flags) && r.value.draft == IsUnsent(flags)
  {
    match GetSysTimeProperty(Slot(m, PtagMsgDeliveryTime))
    case InvalidCast => Threw
    case Got(ticks) =>
      match GetLongProperty(Slot(m, PrMessageSize))
      case InvalidCast => Threw
      case Got(_) =>
        match GetLongProperty(Slot(m, PrMessageFlags))
        case InvalidCast => Threw
        case Got(flags) => Ok(Stamp(ticks, IsRead(flags), IsUnsent(flags)))
  }

  /** The three typed fetches of `AddMessage` (lines 106-110), in order;
      the first that throws ends the attempt. */
  method FetchStamp(m: MapiMessage) returns (r: Outcome<Stamp>)
    ensures r == ReadStamp(m)
  {
    var recvTime := GetSysTimeProperty(Slot(m, PtagMsgDeliveryTime));
    if recvTime.InvalidCast? {
      return Threw;
    }
    var size := GetLongProperty(Slot(m, PrMessageSize));
    if size.InvalidCast? {
      return Threw;
    }
    var flags := GetLongProperty(Slot(m, PrMessageFlags));
    if flags.InvalidCast? {
      return Threw;
    }
    r := Ok(Stamp(recvTime.value, IsRead(flags.value), IsUnsent(flags.value)));
  }

  function MessageClass(m: MapiMessage): Option<string> {
    StringProp(m, PrMessageClass)
  }

  /** The counter moves for every message that is not a delivery report and
      whose time, size and flags could be read, whatever its class. */
  predicate Advances(m: MapiMessage) {
    MessageClass(m) != Some(NDR_CLASS) && ReadStamp(m).Ok?
  }

  datatype AddResult =
    | SkippedReport                          // a non-delivery report: nothing happens
    | Failed                                 // an exception escaped
    | NotConverted(outMsg: OutMessage)       // another class: a placeholder, no file
    | Written(name: string, outMsg: OutMessage)

  /** What `AddMessage` does with a message when the counter stands at
      `lastId` and the random draw is `draw`. */
  function AddOutcome(m: MapiMessage, lastId: nat, draw: nat, env: Env): AddResult {
    var cls := MessageClass(m);
    if cls == Some(NDR_CLASS) then SkippedReport
    else match ReadStamp(m)
      case Threw => Failed
      case Ok(st) => ClassOutcome(m, cls, st, lastId + 1 + draw, env)
  }

  /** What happens to a message of class `cls` once its stamp is read and
      the counter stands at `id`: only a note is translated and written. */
  function ClassOutcome(m: MapiMessage, cls: Option<string>, st: Stamp, id: nat, env: Env): AddResult {
    var outMsg := NewMessage(st.ticks);
    if cls != Some(NOTE_CLASS) then NotConverted(outMsg.(body := Some(PlaceholderBody(cls))))
    else NoteOutcome(m, FileName(st.ticks, id, env.host, st.read, st.draft), outMsg, env)
  }

  /** A note is translated and, unless the translation throws, written
      under `name` with the conversion header added last. */
  function NoteOutcome(m: MapiMessage, name: string, outMsg: OutMessage, env: Env): AddResult {
    match TranslateMail(m, outMsg)
    case Threw => Failed
    case Ok(o) => Written(name, o.(headers := o.headers + [ConvertedHeader(env)]))
  }

  /** A written note keeps its name and date and ends with the conversion header. */
  lemma NoteOutcomeWritten(m: MapiMessage, name: string, outMsg: OutMessage, env: Env)
    requires NoteOutcome(m, name, outMsg, env).Written?
    ensures var r := NoteOutcome(m, name, outMsg, env);
      r.name == name && r.outMsg.date == outMsg.date
      && |r.outMsg.headers| > 0 && r.outMsg.headers[|r.outMsg.headers| - 1] == ConvertedHeader(env)
  {
    TranslationAdds(m, outMsg);
  }

  /** Reports are skipped; a message is filed only once its stamp could be
      read; only notes are written, and other classes get a placeholder body. */
  lemma AddOutcomeOfOthers(m: MapiMessage, lastId: nat, draw: nat, env: Env)
    ensures var r := AddOutcome(m, lastId, draw, env);
      (r.SkippedReport? <==> MessageClass(m) == Some(NDR_CLASS))
      && (r.NotConverted? || r.Written? ==> Advances(m))
      && (r.Written? ==> MessageClass(m) == Some(NOTE_CLASS))
      && (r.NotConverted? ==>
            MessageClass(m) != Some(NOTE_CLASS) && r.outMsg.body == Some(PlaceholderBody(MessageClass(m))))
  {
  }

  /** A written note is named after its stamp and the advanced counter,
      is dated with the receive time, and ends with the conversion header. */
  lemma AddOutcomeWritten(m: MapiMessage, lastId: nat, draw: nat, env: Env)
    requires AddOutcome(m, lastId, draw, env).Written?
    ensures var r := AddOutcome(m, lastId, draw, env);
      var st := ReadStamp(m).value;
      r.name == FileName(st.ticks, lastId + 1 + draw, env.host, st.read, st.draft)
      && r.outMsg.date == st.ticks
      && |r.outMsg.headers| > 0 && r.outMsg.headers[|r.outMsg.headers| - 1] == ConvertedHeader(env)
  {
    AddOutcomeOfOthers(m, lastId, draw, env);
    var st := ReadStamp(m).value;
    var name := FileName(st.ticks, lastId + 1 + draw, env.host, st.read, st.draft);
    assert AddOutcome(m, lastId, draw, env) == NoteOutcome(m, name, NewMessage(st.ticks), env);
    NoteOutcomeWritten(m, name, NewMessage(st.ticks), env);
  }

  /** A note whose stamp was read is named with the advanced counter and
      goes on to be translated. */
  lemma AddOutcomeOfNote(m: MapiMessage, lastId: nat, draw: nat, env: Env, st: Stamp, name: string)
    requires MessageClass(m) == Some(NOTE_CLASS) && ReadStamp(m) == Ok(st)
    requires name == FileName(st.ticks, lastId + 1 + draw, env.host, st.read, st.draft)
    ensures AddOutcome(m, lastId, draw, env) == NoteOutcome(m, name, NewMessage(st.ticks), env)
  {
  }

  /** The files of `cur` after an `AddMessage` with result `r`: a written
      message's text, with its line ends normalised, under its name. */
  function FilesAfter(files: map<string, string>, r: AddResult, env: Env): map<string, string> {
    if r.Written? then files[r.name := LfLines(env.save(r.outMsg))] else files
  }

  /** The file times after an `AddMessage` with result `r`: set to the
      receive time, unless that time was missing. */
  function StampsAfter(stamps: map<string, nat>, r: AddResult): map<string, nat> {
    if r.Written? && r.outMsg.date != MIN_TICKS then stamps[r.name := r.outMsg.date] else stamps
  }

  // ---------------------------------------------------------------------
  // The writer

  /** The result of adding a folder's messages: all of them, or an abort at
      the first entry that could not be opened or whose message threw. */
  datatype FolderResult = Completed | Aborted(at: nat)

  /** An entry of a folder's contents table, as `OpenEntry` returns it. */
  datatype Entry = EntryOk(msg: MapiMessage) | EntryFailed(hr: ErrorCode)

  class MaildirWriter {
    const path: string
    const curPath: string
    var lastUniqueId: int
    var files: map<string, string>   // file name in `cur` -> its text
    var stamps: map<string, nat>     // file name -> receive time its times were set to

    /** Every file carries an id no greater than the counter, and only
        written files have timestamps. */
    ghost predicate Valid()
      reads this
    {
      lastUniqueId >= 0
      && (forall n :: n in files ==> IdAtMost(n, lastUniqueId))
      && (forall n :: n in stamps ==> n in files)
    }

    /** The private constructor: the counter starts at `new Random().Next()`,
        a value in `[0, Int32.MaxValue)`. */
    constructor (path: string, seed: nat)
      requires seed < 0x7FFF_FFFF
      ensures this.path == path && curPath == Combine(path, "cur")
      ensures lastUniqueId == seed && files == map[] && stamps == map[]
      ensures Valid()
    {
      this.path := path;
      curPath := Combine(path, "cur");
      lastUniqueId := seed;
      files := map[];
      stamps := map[];
    }

    /** `CreateMailDir` (lines 29-52): the mailbox directory and its `tmp`,
        `cur` and `new` subdirectories, in creation order, and a writer for it. */
    static method CreateMailDir(path: string, newFolderTitle: string, seed: nat)
      returns (w: MaildirWriter, dirs: seq<string>)
      requires seed < 0x7FFF_FFFF
      ensures fresh(w) && w.Valid()
      ensures w.path == MailboxPath(path, newFolderTitle) && w.curPath == Combine(w.path, "cur")
      ensures w.lastUniqueId == seed && w.files == map[]
      ensures dirs == [w.path, Combine(w.path, "tmp"), Combine(w.path, "cur"), Combine(w.path, "new")]
    {
      var title := EscapeTitle(newFolderTitle);
      var maildirPath := path + "." + title;
      dirs := [maildirPath];
      dirs := dirs + [Combine(maildirPath, "tmp")];
      dirs := dirs + [Combine(maildirPath, "cur")];
      dirs := dirs + [Combine(maildirPath, "new")];
      w := new MaildirWriter(maildirPath, seed);
    }

    /** The file name of lines 113-130, built piece by piece. */
    static method BuildFileName(ticks: nat, id: nat, host: string, read: bool, draft: bool)
      returns (name: string)
      ensures name == FileName(ticks, id, host, read, draft)
    {
      name := NatToString(ticks);
      name := name + ".";
      name := name + NatToString(id);
      name := name + ".";
      name := name + host;
      name := name + ";2,";
      if read {
        name := name + "S";
      }
      if draft {
        name := name + "D";
      }
    }

    /** `AddMessage` (lines 60-218). */
    method AddMessage(m: MapiMessage, draw: nat, env: Env) returns (r: AddResult)
      requires Valid() && draw < 100
      modifies this
      ensures Valid()
      ensures r == AddOutcome(m, old(lastUniqueId), draw, env)
      ensures lastUniqueId == old(lastUniqueId) + (if Advances(m) then 1 + draw else 0)
      ensures r.Written? ==> r.name !in old(files)
      ensures files == FilesAfter(old(files), r, env) && stamps == StampsAfter(old(stamps), r)
    {
      var msgClass := MessageClass(m);
      if msgClass == Some(NDR_CLASS) {
        r := SkippedReport;
      } else {
        var stamp := FetchStamp(m);
        if stamp.Threw? {
          r := Failed;
        } else {
          r := FileStamped(m, msgClass, stamp.value, draw, env);
        }
      }
    }

    /** The rest of `AddMessage` once the stamp is read (lines 112-217):
        only a note goes on to be translated and written. */
    method FileStamped(m: MapiMessage, msgClass: Option<string>, st: Stamp, draw: nat, env: Env)
      returns (r: AddResult)
      requires Valid() && draw < 100
      requires msgClass == MessageClass(m) && msgClass != Some(NDR_CLASS) && ReadStamp(m) == Ok(st)
      modifies this
      ensures Valid() && lastUniqueId == old(lastUniqueId) + 1 + draw
      ensures r == AddOutcome(m, old(lastUniqueId), draw, env)
      ensures r.Written? ==> r.name !in old(files)
      ensures files == FilesAfter(old(files), r, env) && stamps == StampsAfter(old(stamps), r)
    {
      if msgClass != Some(NOTE_CLASS) {
        r := FileOther(m, msgClass, st, draw, env);
      } else {
        var name;
        name, r := FileNote(m, st, draw, env);
        AddOutcomeOfNote(m, old(lastUniqueId), draw, env, st, name);
      }
    }

    /** A message that is neither a report nor a note (lines 112-153):
        the counter still moves and a name is still built, but
        only a placeholder body is produced and nothing is written. */
    method FileOther(m: MapiMessage, msgClass: Option<string>, st: Stamp, draw: nat, env: Env) returns (r: AddResult)
      requires Valid() && draw < 100
      requires msgClass == MessageClass(m) && msgClass != Some(NDR_CLASS) && msgClass != Some(NOTE_CLASS)
      requires ReadStamp(m) == Ok(st)
      modifies this
      ensures Valid() && lastUniqueId == old(lastUniqueId) + 1 + draw
      ensures r == NotConverted(NewMessage(st.ticks).(body := Some(PlaceholderBody(msgClass))))
      ensures r == AddOutcome(m, old(lastUniqueId), draw, env)
      ensures files == old(files) && stamps == old(stamps)
    {
      lastUniqueId := lastUniqueId + 1 + draw;
      var _ := BuildFileName(st.ticks, lastUniqueId, env.host, st.read, st.draft);
      var outMsg := NewMessage(st.ticks);
      r := NotConverted(outMsg.(body := Some(PlaceholderBody(msgClass))));
    }

    /** A note once its stamp is read (lines 112-217): the counter moves,
        the name is built from it, and the note is translated and written
        under a name no earlier file has. */
    method FileNote(m: MapiMessage, st: Stamp, draw: nat, env: Env) returns (name: string, r: AddResult)
      requires Valid() && draw < 100
      modifies this
      ensures Valid() && lastUniqueId == old(lastUniqueId) + 1 + draw
      ensures name == FileName(st.ticks, lastUniqueId, env.host, st.read, st.draft)
      ensures r == NoteOutcome(m, name, NewMessage(st.ticks), env)
      ensures r.Written? ==> r.name !in old(files)
      ensures files == FilesAfter(old(files), r, env) && stamps == StampsAfter(old(stamps), r)
    {
      var id := lastUniqueId + 1 + draw;
      lastUniqueId := id;
      name := BuildFileName(st.ticks, id, env.host, st.read, st.draft);
      FreshName(files, old(lastUniqueId), st.ticks, id, env.host, st.read, st.draft);
      r := WriteNote(m, name, st.ticks, NewMessage(st.ticks), env);
    }

    /** The note branch of `AddMessage` (lines 133-217): translate, add the
        conversion header, save with LF line ends, and set the file times
        unless the receive time is missing. */
    method WriteNote(m: MapiMessage, name: string, recvTime: nat, outMsg: OutMessage, env: Env)
      returns (r: AddResult)
      requires Valid() && IdAtMost(name, lastUniqueId) && name !in files
      requires outMsg == NewMessage(recvTime)
      modifies this
      ensures Valid() && lastUniqueId == old(lastUniqueId)
      ensures r == NoteOutcome(m, name, outMsg, env)
      ensures r.Written? ==> r.name !in old(files)
      ensures files == FilesAfter(old(files), r, env) && stamps == StampsAfter(old(stamps), r)
    {
      var translated := ProcessMailMessage(m, outMsg);
      if translated.Threw? {
        return Failed;
      }
      TranslationAdds(m, outMsg);
      var o := translated.value;
      o := o.(headers := o.headers + [ConvertedHeader(env)]);
      r := Written(name, o);
      Store(name, o, recvTime, env);
    }

    /** Saving a written note (lines 156-217): the saved text goes under
        `name` with LF line ends, and the file times are set to the
        receive time unless that time is missing. */
    method Store(name: string, o: OutMessage, recvTime: nat, env: Env)
      requires Valid() && IdAtMost(name, lastUniqueId) && name !in files
      requires o.date == recvTime
      modifies this
      ensures Valid() && lastUniqueId == old(lastUniqueId)
      ensures files == FilesAfter(old(files), Written(name, o), env)
      ensures stamps == StampsAfter(old(stamps), Written(name, o))
    {
      var text := NormalizeLineEnds(env.save(o));
      files := files[name := text];
      if recvTime != MIN_TICKS {
        stamps := stamps[name := recvTime];
      }
    }

    /** `AddFolder` (lines 220-249): the messages of a folder in table order,
        `draws[i]` being the random draw for the `i`-th. The first entry
        that cannot be opened, or whose message throws, aborts the rest. */
    method AddFolder(entries: seq<Entry>, draws: seq<nat>, env: Env) returns (r: FolderResult)
      requires Valid() && |draws| == |entries|
      requires forall i :: 0 <= i < |draws| ==> draws[i] < 100
      modifies this
      ensures Valid()
      ensures old(lastUniqueId) <= lastUniqueId <= old(lastUniqueId) + 100 * |entries|
      ensures forall n :: n in old(files) ==> n in files && files[n] == old(files)[n]
      ensures r.Aborted? ==> r.at < |entries|
      ensures r.Completed? ==> forall i :: 0 <= i < |entries| ==> entries[i].EntryOk?
      ensures r.Aborted? && entries[r.at].EntryFailed? ==> forall i :: 0 <= i < r.at ==> entries[i].EntryOk?
    {
      var i := 0;
      while i < |entries|
        invariant 0 <= i <= |entries| && Valid()
        invariant old(lastUniqueId) <= lastUniqueId <= old(lastUniqueId) + 100 * i
        invariant forall n :: n in old(files) ==> n in files && files[n] == old(files)[n]
        invariant forall k :: 0 <= k < i ==> entries[k].EntryOk?
      {
        if entries[i].EntryFailed? {
          return Aborted(i);
        }
        var added := AddMessage(entries[i].msg, draws[i], env);
        if added.Failed? {
          return Aborted(i);
        }
        i := i + 1;
      }
      r := Completed;
    }
  }
}
