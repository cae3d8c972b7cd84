/** The student's scan screen on the phone: the attendance map from
    `date-scheduleId` keys to statuses, loaded from the server and then kept
    current by the live `attendance_update` messages. */
module StudentScanScreen {
  import opened Wrappers
  import opened Text
  import opened Dates
  import opened JsValues
  import ScanReconciliation

  /** The statuses the screen knows; `not_set` means "no record". */
  const ValidStatuses: seq<string> := ["present", "absent", "retard", "att", "not_set"]

  /** The live status normalization: lowercased, `pending` read as `att`,
      anything missing or unknown read as `not_set`. */
  function NormalizeStatus(status: Option<string>): (r: string)
    ensures r in ValidStatuses
    ensures status.Some? && Lower(status.value) == "pending" ==> r == "att"
    ensures status.Some? && Lower(status.value) in ValidStatuses ==> r == Lower(status.value)
    ensures status.None? || (Lower(status.value) != "pending" && Lower(status.value) !in ValidStatuses) ==> r == "not_set"
  {
    if status.None? then "not_set"
    else
      var s := Lower(status.value);
      if s == "pending" then "att"
      else if s == [] || s !in ValidStatuses then "not_set"
      else s
  }

  /** Normalizing a normalized status changes nothing. */
  lemma NormalizeStatusIdempotent(status: Option<string>)
    ensures NormalizeStatus(Some(NormalizeStatus(status))) == NormalizeStatus(status)
  {
    var r := NormalizeStatus(status);
    assert r in ValidStatuses;
    LowerOfLowercase(r);
  }

  /** The fetch-time normalization: lowercased, `pending` read as `att`, any
      other value kept. */
  function FetchedStatus(s: string): (r: string)
    ensures Lower(s) == "pending" ==> r == "att"
    ensures Lower(s) != "pending" ==> r == Lower(s)
  {
    var l := Lower(s);
    if l == "pending" then "att" else l
  }

  /** The map the fetch stores: the same keys, each status normalized. The
      `forEach` writes each key once, so its order does not matter. */
  function NormalizeFetched(m: map<string, string>): (r: map<string, string>)
    ensures r.Keys == m.Keys
  {
    map k | k in m :: FetchedStatus(m[k])
  }

  /** The two normalizations agree on every status the screen knows and on
      `pending`; an unknown status survives the fetch (lowercased) where a
      live message would clear it. */
  lemma FetchAgreesWithLive(s: string)
    ensures Lower(s) in ValidStatuses || Lower(s) == "pending" ==> FetchedStatus(s) == NormalizeStatus(Some(s))
    ensures Lower(s) !in ValidStatuses && Lower(s) != "pending" ==>
              FetchedStatus(s) == Lower(s) && NormalizeStatus(Some(s)) == "not_set"
  {
  }

  /** Every status of a loaded map is lowercase, and `pending` never
      survives. */
  lemma FetchedIsNormal(m: map<string, string>)
    ensures forall k :: k in NormalizeFetched(m) ==>
              Lower(NormalizeFetched(m)[k]) == NormalizeFetched(m)[k] && NormalizeFetched(m)[k] != "pending"
  {
    forall k | k in NormalizeFetched(m)
      ensures Lower(NormalizeFetched(m)[k]) == NormalizeFetched(m)[k] && NormalizeFetched(m)[k] != "pending"
    {
      var l := Lower(m[k]);
      LowerIdempotent(m[k]);
      LowerOfLowercase("att");
    }
  }

  /** The fields of a live message the handler reads. */
  datatype Message = Message(kind: string, studentId: JsVal, scheduleId: JsVal, date: string, status: Option<string>)

  /** The message has the update type and its student, slot and date. */
  predicate WellFormed(m: Message)
  {
    m.kind == "attendance_update" && Truthy(m.studentId) && Truthy(m.scheduleId) && m.date != ""
  }

  /** The message is for the student of profile id `me`. */
  predicate ForMe(m: Message, me: string)
  {
    WellFormed(m) && KeyText(m.studentId) == me
  }

  /** `${message.date}-${message.scheduleId}`. */
  function DateKey(m: Message): string
  {
    m.date + "-" + KeyText(m.scheduleId)
  }

  /** The map after a message: unchanged when the message is malformed or for
      another student; otherwise the message's key is removed for `not_set`
      and set to the normalized status for anything else. */
  function ApplyMessage(data: map<string, string>, me: string, m: Message): (r: map<string, string>)
    ensures !ForMe(m, me) ==> r == data
    ensures ForMe(m, me) && NormalizeStatus(m.status) == "not_set" ==> DateKey(m) !in r
    ensures ForMe(m, me) && NormalizeStatus(m.status) != "not_set" ==>
              DateKey(m) in r && r[DateKey(m)] == NormalizeStatus(m.status)
    ensures forall k :: k != DateKey(m) ==> (k in r <==> k in data) && (k in r ==> r[k] == data[k])
  {
    if !ForMe(m, me) then data
    else
      var s := NormalizeStatus(m.status);
      if s == "not_set" then data - {DateKey(m)} else data[DateKey(m) := s]
  }

  /** A message applied twice has the effect of applying it once. */
  lemma ApplyMessageIdempotent(data: map<string, string>, me: string, m: Message)
    ensures ApplyMessage(ApplyMessage(data, me, m), me, m) == ApplyMessage(data, me, m)
  {
  }

  /** The live message a student write of the scan handler sends, as the
      phone parses it. */
  function FromBroadcast(b: ScanReconciliation.Broadcast): Message
    requires b.StudentUpdate?
  {
    Message("attendance_update", Num(b.studentId), Num(b.scheduleId), b.date, Some(b.status))
  }

  /** A scan of student `sid` classified `offset` seconds after the start of
      slot `slot` shows on that student's screen under the slot's key for the
      day, as the lowercase status; other students' screens do not change. */
  lemma ScanShowsOnOwnScreen(data: map<string, string>, sid: nat, slot: nat, d: Date, offset: int, me: string)
    requires sid != 0 && slot != 0
    ensures var b := ScanReconciliation.StudentUpdate(sid, slot, IsoDate(d), Lower(ScanReconciliation.ClassifyStudent(offset)));
            var m := FromBroadcast(b);
            var r := ApplyMessage(data, me, m);
            && (me == NatToString(sid) ==>
                  DateKey(m) in r && r[DateKey(m)] == Lower(ScanReconciliation.ClassifyStudent(offset))
                  && r[DateKey(m)] in ["present", "retard", "absent"])
            && (me != NatToString(sid) ==> r == data)
  {
    ScanReconciliation.BroadcastStudentStatus(offset);
    assert |IsoDate(d)| >= 4;
    OwnUpdateApplies(data, sid, slot, IsoDate(d), Lower(ScanReconciliation.ClassifyStudent(offset)), me);
  }

  /** A well-formed student update with a lowercase status the screen knows
      is applied on that student's screen and ignored on the others. */
  lemma OwnUpdateApplies(data: map<string, string>, sid: nat, slot: nat, date: string, st: string, me: string)
    requires sid != 0 && slot != 0 && date != []
    requires st in ["present", "retard", "absent"] && Lower(st) == st
    ensures var m := FromBroadcast(ScanReconciliation.StudentUpdate(sid, slot, date, st));
            var r := ApplyMessage(data, me, m);
            && (me == NatToString(sid) ==> DateKey(m) in r && r[DateKey(m)] == st)
            && (me != NatToString(sid) ==> r == data)
  {
    var m := FromBroadcast(ScanReconciliation.StudentUpdate(sid, slot, date, st));
    assert NormalizeStatus(m.status) == st;
  }

  /** The screen's state: the attendance map and the version counter whose
      change triggers a fresh load. */
  class Screen {
    var data: map<string, string>
    var version: nat

    constructor ()
      ensures data == map[] && version == 0
    {
      data := map[];
      version := 0;
    }

    /** The fetch: a loaded map replaces the state; a failed request leaves
        it. */
    method FetchAttendance(response: Result<map<string, string>, string>)
      modifies this
      ensures version == old(version)
      ensures data == if response.Ok? then NormalizeFetched(response.value) else old(data)
    {
      if response.Ok? {
        data := NormalizeFetched(response.value);
      }
    }

    /** `ws.onmessage` for the student of profile id `me`: an accepted
        message changes only its own key and bumps the version. */
    method OnMessage(me: string, m: Message)
      modifies this
      ensures data == ApplyMessage(old(data), me, m)
      ensures version == if ForMe(m, me) then old(version) + 1 else old(version)
    {
      if m.kind != "attendance_update" || !Truthy(m.studentId) || !Truthy(m.scheduleId) || m.date == "" {
        return;
      }
      if KeyText(m.studentId) != me {
        return;
      }
      var status := NormalizeStatus(m.status);
      var key := m.date + "-" + KeyText(m.scheduleId);
      if status == "not_set" {
        data := data - {key};
      } else {
        data := data[key := status];
      }
      version := version + 1;
    }
  }
}
