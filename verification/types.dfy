/** The records of the attendance app (types.ts) and the two collections
    the storage layer keeps: the member registry and the attendance ledger.

    Time is an integer count of milliseconds since the Unix epoch. The
    ISO-8601 strings the app stores for timestamps are assumed to encode
    such a count without loss. */
module Types {

  import opened Wrappers
  import opened Seqs

  /** A face descriptor: the numbers the recognition network extracts from a
      face (128 of them when produced by the network). */
  type Descriptor = seq<real>

  /** An enrolled person. The descriptor is optional: a member whose
      registration produced no descriptor stays listed but cannot be matched. */
  datatype Member = Member(
    id: string,
    name: string,
    photoUrl: string,
    faceDescriptor: Option<Descriptor>,
    createdAt: string)

  /** A check-in. `memberName` is a copy of the member's name taken when the
      record is created; `dateStr` is the UTC calendar day of the check-in,
      kept as a day number (see StorageService.DateKey). */
  datatype AttendanceRecord = AttendanceRecord(
    id: string,
    memberId: string,
    memberName: string,
    timestamp: int,
    dateStr: int)

  /** The two persisted collections, as the storage layer sees them. */
  datatype Store = Store(members: seq<Member>, attendance: seq<AttendanceRecord>)

  /** No two members share an id. */
  predicate UniqueMemberIds(members: seq<Member>)
  {
    forall i, j :: 0 <= i < j < |members| ==> members[i].id != members[j].id
  }

  /** Some member has the given id. */
  predicate HasMemberId(members: seq<Member>, id: string)
  {
    exists i :: 0 <= i < |members| && members[i].id == id
  }

  /** The test `m => m.id === id` of `saveMember`'s `findIndex`. */
  function IdMatches(id: string): Member -> bool
  {
    (m: Member) => m.id == id
  }

  /** The test `m => m.id !== id` of `deleteMember`'s `filter`. */
  function IdDiffers(id: string): Member -> bool
  {
    (m: Member) => m.id != id
  }

  /** No two attendance records share an id. */
  predicate UniqueRecordIds(records: seq<AttendanceRecord>)
  {
    forall i, j :: 0 <= i < j < |records| ==> records[i].id != records[j].id
  }
}
