/** The matching step of the face service (services/faceService.ts,
    `findMatch`). The face-api.js `FaceMatcher` it delegates to is not part
    of this model: it is a parameter, an arbitrary function from the
    labelled descriptors, the threshold and the query to a best label and
    its distance. Only the wrapper around it is modelled. */
module FaceService {

  import opened Wrappers
  import opened Seqs
  import opened Types

  /** The matcher accepts a face only at a distance below this (the
      library's default is 0.6). */
  const MatchThreshold: real := 0.5

  /** The label face-api.js gives a query that no labelled face is close to. */
  const UnknownLabel: string := "unknown"

  /** `LabeledFaceDescriptors`: a label and the reference descriptors for it.
      The field is face-api's `label`, renamed because `label` is a Dafny
      keyword; likewise in `FaceMatch`. */
  datatype LabeledDescriptors = LabeledDescriptors(labelName: string, descriptors: seq<Descriptor>)

  /** `FaceMatch`: the label the matcher chose and its distance. */
  datatype FaceMatch = FaceMatch(labelName: string, distance: real)

  /** `new FaceMatcher(labeled, threshold).findBestMatch(query)`. */
  type Matcher = (seq<LabeledDescriptors>, real, Descriptor) -> FaceMatch

  datatype MatchResult = MatchResult(member: Member, distance: real)

  /** The test `m => m.faceDescriptor && Array.isArray(m.faceDescriptor)`. */
  predicate HasDescriptor(m: Member)
  {
    m.faceDescriptor.Some?
  }

  /** The members that take part in matching: exactly those holding a
      descriptor, in registry order. */
  function ValidMembers(members: seq<Member>): (valid: seq<Member>)
    ensures forall i :: 0 <= i < |valid| ==> valid[i].faceDescriptor.Some?
    ensures forall i :: 0 <= i < |members| && members[i].faceDescriptor.Some? ==> members[i] in valid
    ensures IsSubsequence(valid, members)
    ensures |valid| == CountWhere(members, HasDescriptor)
  {
    Filter(members, HasDescriptor)
  }

  /** What the matcher is built from: one entry per valid member, in order,
      labelled with the member's id and holding its one descriptor. */
  function Labelled(valid: seq<Member>): (labelled: seq<LabeledDescriptors>)
    requires forall i :: 0 <= i < |valid| ==> valid[i].faceDescriptor.Some?
    ensures |labelled| == |valid|
    ensures forall i :: 0 <= i < |valid| ==>
              labelled[i].labelName == valid[i].id && labelled[i].descriptors == [valid[i].faceDescriptor.value]
  {
    seq(|valid|, i requires 0 <= i < |valid| => LabeledDescriptors(valid[i].id, [valid[i].faceDescriptor.value]))
  }

  /** The matcher's answer for `query` among the valid members of `members`. */
  function Consult(matcher: Matcher, members: seq<Member>, query: Descriptor): FaceMatch
  {
    matcher(Labelled(ValidMembers(members)), MatchThreshold, query)
  }

  /** The search `m => m.id === labelName` run over the valid members. */
  function ValidWithId(labelName: string): Member -> bool
  {
    And(HasDescriptor, IdMatches(labelName))
  }

  /** `findMatch`: no result for an empty registry or one without
      descriptors; otherwise ask the matcher, and map a label other than
      "unknown" back to the first valid member with that id. */
  function FindMatch(query: Descriptor, members: seq<Member>, matcher: Matcher): (r: Option<MatchResult>)
    ensures |members| == 0 ==> r.None?
    ensures (forall i :: 0 <= i < |members| ==> members[i].faceDescriptor.None?) ==> r.None?
    ensures r.Some? ==> r.value.member in members && r.value.member.faceDescriptor.Some?
    ensures r.Some? <==>
              && (exists i :: 0 <= i < |members| && members[i].faceDescriptor.Some?)
              && Consult(matcher, members, query).labelName != UnknownLabel
              && (exists i :: 0 <= i < |members| && members[i].faceDescriptor.Some?
                                && members[i].id == Consult(matcher, members, query).labelName)
    ensures r.Some? ==>
              && r.value.distance == Consult(matcher, members, query).distance
              && exists k :: IsFirstWhere(members, ValidWithId(Consult(matcher, members, query).labelName), k)
                             && r.value.member == members[k]
  {
    if |members| == 0 then None
    else
      var valid := ValidMembers(members);
      if |valid| == 0 then None
      else
        var answer := matcher(Labelled(valid), MatchThreshold, query);
        if answer.labelName != UnknownLabel then
          FirstValidWithId(members, answer.labelName);
          match FirstWhere(valid, IdMatches(answer.labelName))
          case Some(k) => Some(MatchResult(valid[k], answer.distance))
          case None => None
        else
          None
  }

  /** Locating a label among the valid members is locating the first member
      of the registry that holds a descriptor and has that id. */
  lemma FirstValidWithId(members: seq<Member>, labelName: string)
    ensures var valid := ValidMembers(members);
            var found := FirstWhere(valid, IdMatches(labelName));
            && (found.None? <==> forall i :: 0 <= i < |members| ==> !(members[i].faceDescriptor.Some? && members[i].id == labelName))
            && (found.Some? ==> exists k :: IsFirstWhere(members, ValidWithId(labelName), k) && valid[found.value] == members[k])
  {
    FirstWhereOfFilter(members, HasDescriptor, IdMatches(labelName));
    var all := FirstWhere(members, ValidWithId(labelName));
    if all.Some? {
      assert IsFirstWhere(members, ValidWithId(labelName), all.value);
    }
  }

  /** The matcher is consulted only about the valid members, at threshold
      0.5: two matchers that give the same answer to that one question lead
      to the same result, and with nothing to match the matcher does not
      matter at all. */
  lemma OnlyTheOneQuestionMatters(query: Descriptor, members: seq<Member>, m1: Matcher, m2: Matcher)
    requires (exists i :: 0 <= i < |members| && members[i].faceDescriptor.Some?) ==>
               m1(Labelled(ValidMembers(members)), MatchThreshold, query)
               == m2(Labelled(ValidMembers(members)), MatchThreshold, query)
    ensures FindMatch(query, members, m1) == FindMatch(query, members, m2)
  {
  }

  /** Whatever the matcher answers, a member without a descriptor is never
      the result, and "unknown" is never mapped to a member. */
  lemma NoDescriptorNeverMatched(query: Descriptor, members: seq<Member>, matcher: Matcher)
    ensures var r := FindMatch(query, members, matcher);
            && (r.Some? ==> r.value.member.faceDescriptor.Some?)
            && (Consult(matcher, members, query).labelName == UnknownLabel ==> r.None?)
  {
  }

  /** The labels the matcher is given are exactly the ids of the members
      holding a descriptor. */
  lemma LabelsAreValidIds(members: seq<Member>, labelName: string)
    ensures (exists i :: 0 <= i < |Labelled(ValidMembers(members))|
                         && Labelled(ValidMembers(members))[i].labelName == labelName)
            <==> (exists j :: 0 <= j < |members| && members[j].faceDescriptor.Some? && members[j].id == labelName)
  {
    var valid := ValidMembers(members);
    SubsequenceElements(valid, members);
    if exists j :: 0 <= j < |members| && members[j].faceDescriptor.Some? && members[j].id == labelName {
      var j :| 0 <= j < |members| && members[j].faceDescriptor.Some? && members[j].id == labelName;
      var i :| 0 <= i < |valid| && valid[i] == members[j];
      assert Labelled(valid)[i].labelName == labelName;
    }
    if exists i :: 0 <= i < |Labelled(valid)| && Labelled(valid)[i].labelName == labelName {
      var i :| 0 <= i < |Labelled(valid)| && Labelled(valid)[i].labelName == labelName;
      assert valid[i] in members;
      var j :| 0 <= j < |members| && members[j] == valid[i];
    }
  }
}
