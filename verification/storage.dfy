/** The storage service (services/storageService.ts): the member registry
    and the attendance ledger. Each operation of the service reads one
    collection, computes its new value and writes it back; here each is a
    pure function from the old collection to the new one. */
module StorageService {

  import opened Wrappers
  import opened Seqs
  import opened Types

  // ---------------------------------------------------------------------
  // Member registry
  // ---------------------------------------------------------------------

  /** `saveMember`: replace the first member with the same id, or append the
      member when its id is new. */
  function SaveMember(members: seq<Member>, member: Member): (r: seq<Member>)
    ensures HasMemberId(members, member.id) ==>
              exists k :: IsFirstWhere(members, IdMatches(member.id), k) && r == members[k := member]
    ensures !HasMemberId(members, member.id) ==> r == members + [member]
    ensures |r| == if HasMemberId(members, member.id) then |members| else |members| + 1
  {
    match FirstWhere(members, IdMatches(member.id))
    case Some(k) => members[k := member]
    case None => members + [member]
  }

  /** `deleteMember`: keep exactly the members whose id differs. */
  function DeleteMember(members: seq<Member>, id: string): (r: seq<Member>)
    ensures forall i :: 0 <= i < |r| ==> r[i].id != id
    ensures forall i :: 0 <= i < |members| && members[i].id != id ==> members[i] in r
    ensures IsSubsequence(r, members)
    ensures |r| == CountWhere(members, IdDiffers(id))
    ensures !HasMemberId(members, id) ==> r == members
  {
    var r := Filter(members, IdDiffers(id));
    if !HasMemberId(members, id) then
      FilterAllPass(members, IdDiffers(id));
      r
    else
      r
  }

  /** Saving keeps member ids pairwise distinct, and the saved member is
      then the one entry with its id. */
  lemma SaveMemberKeepsIdsUnique(members: seq<Member>, member: Member)
    requires UniqueMemberIds(members)
    ensures UniqueMemberIds(SaveMember(members, member))
    ensures member in SaveMember(members, member)
    ensures forall i :: 0 <= i < |SaveMember(members, member)| && SaveMember(members, member)[i].id == member.id
              ==> SaveMember(members, member)[i] == member
  {
    var r := SaveMember(members, member);
    if HasMemberId(members, member.id) {
      var k :| IsFirstWhere(members, IdMatches(member.id), k) && r == members[k := member];
      assert r[k] == member;
    } else {
      assert r[|members|] == member;
    }
  }

  /** After saving, looking the id up finds the saved member. */
  lemma SaveMemberThenLookup(members: seq<Member>, member: Member)
    ensures var r := SaveMember(members, member);
            exists k :: IsFirstWhere(r, IdMatches(member.id), k) && r[k] == member
  {
    var r := SaveMember(members, member);
    if HasMemberId(members, member.id) {
      var k :| IsFirstWhere(members, IdMatches(member.id), k) && r == members[k := member];
      assert IsFirstWhere(r, IdMatches(member.id), k);
    } else {
      assert IsFirstWhere(r, IdMatches(member.id), |members|);
    }
  }

  /** Saving the same member twice is the same as saving it once. */
  lemma {:induction false} SaveMemberIdempotent(members: seq<Member>, member: Member)
    ensures SaveMember(SaveMember(members, member), member) == SaveMember(members, member)
  {
    var r := SaveMember(members, member);
    SaveMemberThenLookup(members, member);
    var k :| IsFirstWhere(r, IdMatches(member.id), k) && r[k] == member;
    assert HasMemberId(r, member.id);
    var k' :| IsFirstWhere(r, IdMatches(member.id), k') && SaveMember(r, member) == r[k' := member];
    assert k' == k;
  }

  /** Deleting a member's id after saving the member leaves what deleting
      that id from the original registry leaves. */
  lemma {:induction false} DeleteAfterSave(members: seq<Member>, member: Member)
    ensures DeleteMember(SaveMember(members, member), member.id) == DeleteMember(members, member.id)
  {
    var p := IdDiffers(member.id);
    var r := SaveMember(members, member);
    if HasMemberId(members, member.id) {
      var k :| IsFirstWhere(members, IdMatches(member.id), k) && r == members[k := member];
      FilterUpdateRejected(members, k, member, p);
    } else {
      FilterAppend(members, [member], p);
      assert Filter([member], p) == [];
    }
  }

  /** With distinct ids, deleting a present id removes exactly one member,
      and the ids stay distinct. */
  lemma DeleteMemberUnique(members: seq<Member>, id: string)
    requires UniqueMemberIds(members)
    ensures UniqueMemberIds(DeleteMember(members, id))
    ensures |DeleteMember(members, id)| == if HasMemberId(members, id) then |members| - 1 else |members|
  {
    SubsequenceUnique(DeleteMember(members, id), members);
    if HasMemberId(members, id) {
      CountOthersUnique(members, id);
    }
  }

  lemma {:induction false} CountOthersUnique(members: seq<Member>, id: string)
    requires UniqueMemberIds(members)
    requires HasMemberId(members, id)
    ensures CountWhere(members, IdDiffers(id)) == |members| - 1
  {
    var rest := members[1..];
    assert forall i :: 1 <= i < |members| ==> members[i] == rest[i - 1];
    assert UniqueMemberIds(rest);
    if members[0].id == id {
      assert forall i :: 0 <= i < |rest| ==> IdDiffers(id)(rest[i]);
      CountWhereBound(rest, IdDiffers(id));
    } else {
      var k :| 0 <= k < |members| && members[k].id == id;
      assert rest[k - 1].id == id;
      CountOthersUnique(rest, id);
    }
  }

  lemma {:induction false} SubsequenceUnique(a: seq<Member>, b: seq<Member>)
    requires IsSubsequence(a, b)
    requires UniqueMemberIds(b)
    ensures UniqueMemberIds(a)
    decreases |b|
  {
    if |a| == 0 {
    } else if a[0] == b[0] && IsSubsequence(a[1..], b[1..]) {
      SubsequenceUnique(a[1..], b[1..]);
      SubsequenceElements(a[1..], b[1..]);
      forall i, j | 0 <= i < j < |a| ensures a[i].id != a[j].id {
        if i == 0 {
          assert a[j] == a[1..][j - 1];
          assert a[j] in b[1..];
        } else {
          assert a[i] == a[1..][i - 1] && a[j] == a[1..][j - 1];
        }
      }
    } else {
      SubsequenceUnique(a, b[1..]);
    }
  }

  // ---------------------------------------------------------------------
  // Attendance ledger
  // ---------------------------------------------------------------------

  /** The dedup window of `logAttendance`: one hour in milliseconds. */
  const OneHourMs: int := 60 * 60 * 1000

  const MsPerDay: int := 24 * 60 * 60 * 1000

  /** The UTC calendar day of instant `t`, the date part of
      `toISOString()`, numbered from the epoch. Division by a positive
      divisor rounds down here, so instants before the epoch get the day
      they fall in as well. */
  function DateKey(t: int): (d: int)
    ensures d * MsPerDay <= t < (d + 1) * MsPerDay
  {
    t / MsPerDay
  }

  /** A record that suppresses a new check-in of `memberId` at `now`: same
      member, same UTC day, and less than an hour old. A record stamped
      later than `now` counts as less than an hour old. */
  predicate Blocks(now: int, memberId: string, rec: AttendanceRecord)
  {
    && rec.memberId == memberId
    && rec.dateStr == DateKey(now)
    && now - rec.timestamp < OneHourMs
  }

  datatype LogOutcome = LogOutcome(record: Option<AttendanceRecord>, records: seq<AttendanceRecord>)

  /** `logAttendance`: refuse (no record, ledger unchanged) when a blocking
      record exists; otherwise put a new record, carrying the member's
      current name, at the front of the ledger and return it. `freshId`
      stands for the `crypto.randomUUID()` that `logAttendance` draws. */
  function LogAttendance(records: seq<AttendanceRecord>, member: Member, now: int, freshId: string): (out: LogOutcome)
    ensures out.record.None? <==> exists i :: 0 <= i < |records| && Blocks(now, member.id, records[i])
    ensures out.record.None? ==> out.records == records
    ensures out.record.Some? ==>
              && out.record.value.id == freshId
              && out.record.value.memberId == member.id
              && out.record.value.memberName == member.name
              && out.record.value.timestamp == now
              && out.record.value.dateStr == DateKey(now)
              && |out.records| == |records| + 1
              && out.records[0] == out.record.value
              && out.records[1..] == records
  {
    match FirstWhere(records, (rec: AttendanceRecord) => Blocks(now, member.id, rec))
    case Some(_) => LogOutcome(None, records)
    case None =>
      var rec := AttendanceRecord(freshId, member.id, member.name, now, DateKey(now));
      LogOutcome(Some(rec), [rec] + records)
  }

  /** The ledger as `logAttendance` builds it from an empty start with a
      clock that never runs backwards: record ids distinct, each day key the
      day of its timestamp, newest first, and no two records of one member
      on one day less than an hour apart. */
  ghost predicate WellFormedLedger(records: seq<AttendanceRecord>)
  {
    && UniqueRecordIds(records)
    && (forall i :: 0 <= i < |records| ==> records[i].dateStr == DateKey(records[i].timestamp))
    && (forall i, j :: 0 <= i < j < |records| ==> records[j].timestamp <= records[i].timestamp)
    && (forall i, j :: 0 <= i < j < |records| && records[i].memberId == records[j].memberId
                       && records[i].dateStr == records[j].dateStr
                       ==> records[i].timestamp - records[j].timestamp >= OneHourMs)
  }

  /** `logAttendance` keeps the ledger well formed, given a fresh record id
      and a clock reading no earlier than any recorded check-in. */
  lemma LogAttendanceKeepsLedger(records: seq<AttendanceRecord>, member: Member, now: int, freshId: string)
    requires WellFormedLedger(records)
    requires forall i :: 0 <= i < |records| ==> records[i].id != freshId
    requires forall i :: 0 <= i < |records| ==> records[i].timestamp <= now
    ensures WellFormedLedger(LogAttendance(records, member, now, freshId).records)
  {
  }

  /** Once a member is admitted, a second attempt less than an hour later on
      the same UTC day is refused and leaves the ledger as it is. */
  lemma AdmittedThenRefused(records: seq<AttendanceRecord>, member: Member, now: int, later: int, id1: string, id2: string)
    requires LogAttendance(records, member, now, id1).record.Some?
    requires now <= later < now + OneHourMs
    requires DateKey(later) == DateKey(now)
    ensures var first := LogAttendance(records, member, now, id1);
            var second := LogAttendance(first.records, member, later, id2);
            second.record.None? && second.records == first.records
  {
  }

  /** The window is strict and bounded by the day: a record of the member
      exactly one hour old, a record of another UTC day, or a record of
      another member never blocks; so when every record is of one of these
      kinds the check-in is admitted. */
  lemma NonBlockingRecordsAdmit(records: seq<AttendanceRecord>, member: Member, now: int, freshId: string)
    requires forall i :: 0 <= i < |records| ==>
               || records[i].memberId != member.id
               || records[i].dateStr != DateKey(now)
               || records[i].timestamp == now - OneHourMs
    ensures LogAttendance(records, member, now, freshId).record.Some?
  {
  }

  /** The scenario of a member checking in at `t0`, again 30 minutes later
      on the same day (refused), and again 61 minutes after `t0` (admitted). */
  lemma DedupScenario(records: seq<AttendanceRecord>, member: Member, t0: int, id1: string, id2: string, id3: string)
    requires forall i :: 0 <= i < |records| ==> records[i].memberId != member.id
    requires DateKey(t0 + 30 * 60 * 1000) == DateKey(t0)
    ensures var a := LogAttendance(records, member, t0, id1);
            var b := LogAttendance(a.records, member, t0 + 30 * 60 * 1000, id2);
            var c := LogAttendance(b.records, member, t0 + 61 * 60 * 1000, id3);
            a.record.Some? && b.record.None? && c.record.Some?
  {
  }

  /** A check-in at 23:50 UTC followed by one at 00:10 the next day: twenty
      minutes apart, yet both are admitted because the day changed. */
  lemma MidnightScenario(records: seq<AttendanceRecord>, member: Member, day: int, id1: string, id2: string)
    requires forall i :: 0 <= i < |records| ==> records[i].memberId != member.id
    ensures var t0 := day * MsPerDay + (23 * 60 + 50) * 60 * 1000;
            var a := LogAttendance(records, member, t0, id1);
            var b := LogAttendance(a.records, member, t0 + 20 * 60 * 1000, id2);
            a.record.Some? && b.record.Some?
  {
    var t0 := day * MsPerDay + (23 * 60 + 50) * 60 * 1000;
    var t1 := t0 + 20 * 60 * 1000;
    assert t0 == day * MsPerDay + 85800000;
    assert t1 == (day + 1) * MsPerDay + 600000;
    assert DateKey(t0) == day;
    assert DateKey(t1) == day + 1;
    var a := LogAttendance(records, member, t0, id1);
    forall i | 0 <= i < |a.records| ensures !Blocks(t1, member.id, a.records[i]) {
      if i > 0 {
        assert a.records[i] == records[i - 1];
      }
    }
  }

  // ---------------------------------------------------------------------
  // Clearing
  // ---------------------------------------------------------------------

  /** `clearData`: both collections are removed, so both read back empty. */
  function ClearData(s: Store): (t: Store)
    ensures t.members == [] && t.attendance == []
  {
    Store([], [])
  }

  /** After clearing, every check-in is admitted and every member id is
      new to the registry. */
  lemma AfterClearData(s: Store, member: Member, now: int, freshId: string)
    ensures LogAttendance(ClearData(s).attendance, member, now, freshId).records
            == [AttendanceRecord(freshId, member.id, member.name, now, DateKey(now))]
    ensures SaveMember(ClearData(s).members, member) == [member]
  {
  }
}
