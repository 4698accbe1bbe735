/** One pass of the check-in screen's polling loop (App.tsx, `processVideo`):
    the frame's detection, if any, is matched against the registry, and a
    match is offered to the attendance ledger. The camera, the detector and
    the timer that drives the loop are outside the model; the detection
    result, the matcher and the clock reading come in as parameters. */
module CheckIn {

  import opened Wrappers
  import opened Seqs
  import opened Types
  import opened StorageService
  import opened FaceService

  /** The four statuses the screen shows. */
  datatype Outcome =
    | Admitted(record: AttendanceRecord)
    | AlreadyRegistered(member: Member)
    | UnknownFace
    | NoFace

  datatype FrameResult = FrameResult(outcome: Outcome, store: Store)

  /** Process one frame. `detection` is the descriptor of the face found in
      it, None when no face was found; `freshId` is the id a new attendance
      record would get. The registry the screen matches against is the one
      in storage. */
  function ProcessFrame(s: Store, detection: Option<Descriptor>, matcher: Matcher, now: int, freshId: string): (res: FrameResult)
    ensures res.outcome.NoFace? <==> detection.None?
    ensures res.outcome.UnknownFace? <==> detection.Some? && FindMatch(detection.value, s.members, matcher).None?
    ensures res.store.members == s.members
    ensures !res.outcome.Admitted? ==> res.store == s
    ensures res.outcome.Admitted? ==>
              && res.store.attendance == [res.outcome.record] + s.attendance
              && res.outcome.record.timestamp == now
              && res.outcome.record.id == freshId
              && exists m :: m in s.members && m.faceDescriptor.Some?
                             && res.outcome.record.memberId == m.id && res.outcome.record.memberName == m.name
    ensures detection.Some? && FindMatch(detection.value, s.members, matcher).Some? ==>
              var found := FindMatch(detection.value, s.members, matcher).value.member;
              && (res.outcome.Admitted? <==>
                    forall i :: 0 <= i < |s.attendance| ==> !Blocks(now, found.id, s.attendance[i]))
              && (res.outcome.Admitted? ==>
                    res.outcome.record == AttendanceRecord(freshId, found.id, found.name, now, DateKey(now)))
              && (res.outcome.AlreadyRegistered? ==> res.outcome.member == found)
    ensures res.outcome.AlreadyRegistered? ==>
              && res.outcome.member in s.members
              && res.outcome.member.faceDescriptor.Some?
              && exists i :: 0 <= i < |s.attendance| && Blocks(now, res.outcome.member.id, s.attendance[i])
  {
    match detection
    case None => FrameResult(NoFace, s)
    case Some(query) =>
      match FindMatch(query, s.members, matcher)
      case None => FrameResult(UnknownFace, s)
      case Some(found) =>
        var logged := LogAttendance(s.attendance, found.member, now, freshId);
        match logged.record
        case Some(rec) => FrameResult(Admitted(rec), Store(s.members, logged.records))
        case None => FrameResult(AlreadyRegistered(found.member), s)
  }

  /** Two frames less than an hour apart on the same UTC day that both match
      the same member admit that member at most once. */
  lemma NoDoubleAdmission(s: Store, q1: Descriptor, q2: Descriptor, matcher: Matcher,
                          now: int, later: int, id1: string, id2: string)
    requires now <= later < now + OneHourMs
    requires DateKey(later) == DateKey(now)
    requires FindMatch(q1, s.members, matcher).Some? && FindMatch(q2, s.members, matcher).Some? ==>
               FindMatch(q1, s.members, matcher).value.member.id == FindMatch(q2, s.members, matcher).value.member.id
    ensures var first := ProcessFrame(s, Some(q1), matcher, now, id1);
            var second := ProcessFrame(first.store, Some(q2), matcher, later, id2);
            !(first.outcome.Admitted? && second.outcome.Admitted?)
  {
  }

  /** Enrol Ana, show her face (the matcher names her at distance 0.3): she
      is admitted under her name. Show the same face again at once: already
      registered. Show a face the matcher calls unknown: unknown face. */
  lemma AnaScenario(ana: Member, attendance: seq<AttendanceRecord>, matcher: Matcher,
                    near: Descriptor, far: Descriptor, now: int, id1: string, id2: string, id3: string)
    requires ana.name == "Ana" && ana.faceDescriptor.Some? && ana.id != UnknownLabel
    requires forall i :: 0 <= i < |attendance| ==> attendance[i].memberId != ana.id
    requires matcher(Labelled([ana]), MatchThreshold, near) == FaceMatch(ana.id, 0.3)
    requires matcher(Labelled([ana]), MatchThreshold, far).labelName == UnknownLabel
    ensures var r1 := ProcessFrame(Store([ana], attendance), Some(near), matcher, now, id1);
            var r2 := ProcessFrame(r1.store, Some(near), matcher, now, id2);
            var r3 := ProcessFrame(r2.store, Some(far), matcher, now, id3);
            && r1.outcome.Admitted? && r1.outcome.record.memberName == "Ana"
            && r2.outcome == AlreadyRegistered(ana)
            && r3.outcome == UnknownFace
  {
    var members := [ana];
    assert Filter(members[1..], HasDescriptor) == [];
    assert ValidMembers(members) == [ana];
    assert IsFirstWhere(members, ValidWithId(ana.id), 0);
    var r1 := ProcessFrame(Store(members, attendance), Some(near), matcher, now, id1);
    assert r1.store.attendance[0].memberId == ana.id;
    assert Blocks(now, ana.id, r1.store.attendance[0]);
  }
}
