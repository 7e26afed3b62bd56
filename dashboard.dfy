/** The Dashboard page: the "my private communities" selection and joining
    a community with an invitation code. The remote community directory is
    modelled as a sequence of records in the order the directory returns them. */
module Dashboard {
  import opened Common
  import JsString

  datatype CommunityType = Open | Closed

  /** A community record; a field the record may lack is an `Option`. */
  datatype Community = Community(
    id: string,
    kind: CommunityType,
    createdBy: Option<string>,
    invitationCode: Option<string>,
    members: Option<seq<string>>)

  /** `community.members || []`: absent members count as none. */
  function MembersOf(c: Community): seq<string> {
    c.members.GetOr([])
  }

  /** Every record has an id of its own. */
  predicate DistinctIds(dir: seq<Community>) {
    forall i, j :: 0 <= i < j < |dir| ==> dir[i].id != dir[j].id
  }

  /** No community lists a member twice. */
  predicate MembersAreSets(dir: seq<Community>) {
    forall i :: 0 <= i < |dir| ==> NoDuplicates(MembersOf(dir[i]))
  }

  // ---------------------------------------------------------------------
  // My private communities

  /** The selection test of `myCommunities`: a closed community the user
      created or belongs to. */
  predicate IsMine(c: Community, email: string) {
    c.kind == Closed && (c.createdBy == Some(email) || email in MembersOf(c))
  }

  /** `allCommunities.filter(...)` for the signed-in user: exactly the
      communities that pass `IsMine`, in the order of `all`. */
  function MyCommunities(all: seq<Community>, email: string): (r: seq<Community>)
    ensures |r| <= |all|
    ensures forall c :: c in r <==> c in all && IsMine(c, email)
  {
    if all == [] then []
    else (if IsMine(all[0], email) then [all[0]] else []) + MyCommunities(all[1..], email)
  }

  /** The selection keeps the directory's order: selecting from two
      consecutive parts is selecting from each and concatenating. */
  lemma {:induction false} MyCommunitiesAppend(a: seq<Community>, b: seq<Community>, email: string)
    ensures MyCommunities(a + b, email) == MyCommunities(a, email) + MyCommunities(b, email)
  {
    if a == [] {
      assert a + b == b;
    } else {
      assert (a + b)[0] == a[0];
      assert (a + b)[1..] == a[1..] + b;
      MyCommunitiesAppend(a[1..], b, email);
    }
  }

  // ---------------------------------------------------------------------
  // Joining with an invitation code

  /** The record answers the query `{ invitation_code: code }`. */
  predicate HasCode(c: Community, code: string) {
    c.invitationCode == Some(code)
  }

  /** `communities[0]` of the query result: the position of the first record,
      in directory order, whose invitation code is `code`, or None when the
      query comes back empty. */
  function FirstWithCode(dir: seq<Community>, code: string): (r: Option<nat>)
    ensures r.None? <==> forall i :: 0 <= i < |dir| ==> !HasCode(dir[i], code)
    ensures r.Some? ==> r.value < |dir| && HasCode(dir[r.value], code)
    ensures r.Some? ==> forall i :: 0 <= i < r.value ==> !HasCode(dir[i], code)
  {
    if dir == [] then None
    else if HasCode(dir[0], code) then Some(0)
    else match FirstWithCode(dir[1..], code)
      case None => None
      case Some(k) => Some(k + 1)
  }

  /** The directory after `Community.update(id, { members: m })`: each record
      with that id has its members replaced by `m`; nothing else changes. */
  function UpdateMembers(dir: seq<Community>, id: string, m: seq<string>): (r: seq<Community>)
    ensures |r| == |dir|
    ensures forall i :: 0 <= i < |dir| && dir[i].id != id ==> r[i] == dir[i]
    ensures forall i :: 0 <= i < |dir| && dir[i].id == id ==> r[i] == dir[i].(members := Some(m))
  {
    seq(|dir|, i requires 0 <= i < |dir| =>
      if dir[i].id == id then dir[i].(members := Some(m)) else dir[i])
  }

  datatype JoinOutcome =
    | InvalidCode
    | AlreadyMember(communityId: string)
    | Joined(communityId: string)

  datatype JoinResult = JoinResult(outcome: JoinOutcome, directory: seq<Community>)

  /** One join with an already trimmed code: look the code up, take the first
      match, and append the user's email to its members unless it is there. */
  function Join(dir: seq<Community>, code: string, email: string): (r: JoinResult)
    ensures r.outcome == InvalidCode <==> forall i :: 0 <= i < |dir| ==> !HasCode(dir[i], code)
    ensures !r.outcome.Joined? ==> r.directory == dir
    ensures r.outcome != InvalidCode ==>
      var i := FirstWithCode(dir, code).value;
      && r.outcome.communityId == dir[i].id
      && (r.outcome.AlreadyMember? <==> email in MembersOf(dir[i]))
  {
    match FirstWithCode(dir, code)
    case None => JoinResult(InvalidCode, dir)
    case Some(i) =>
      var community := dir[i];
      var current := MembersOf(community);
      if email !in current then
        JoinResult(Joined(community.id), UpdateMembers(dir, community.id, current + [email]))
      else
        JoinResult(AlreadyMember(community.id), dir)
  }

  /** A successful join rewrites only the chosen community, and only its
      members: they become the old members followed by the email. */
  lemma JoinedTouchesOnlyChosen(dir: seq<Community>, code: string, email: string)
    requires DistinctIds(dir)
    requires Join(dir, code, email).outcome.Joined?
    ensures var r := Join(dir, code, email).directory;
      var i := FirstWithCode(dir, code).value;
      && |r| == |dir|
      && email !in MembersOf(dir[i])
      && r[i] == dir[i].(members := Some(MembersOf(dir[i]) + [email]))
      && forall j :: 0 <= j < |dir| && j != i ==> r[j] == dir[j]
  {
  }

  /** Joining keeps every member list free of duplicates. */
  lemma JoinKeepsMembersSets(dir: seq<Community>, code: string, email: string)
    requires MembersAreSets(dir)
    ensures MembersAreSets(Join(dir, code, email).directory)
  {
  }

  /** Joining twice with the same code: the first call joins, the second
      finds the user already a member of the same community and writes nothing. */
  lemma JoinTwice(dir: seq<Community>, code: string, email: string)
    requires Join(dir, code, email).outcome.Joined?
    ensures var first := Join(dir, code, email);
      Join(first.directory, code, email) == JoinResult(AlreadyMember(first.outcome.communityId), first.directory)
  {
  }

  /** After a join that did not fail, the chosen community, if closed, is
      among the user's private communities. */
  lemma JoinMakesMine(dir: seq<Community>, code: string, email: string)
    requires Join(dir, code, email).outcome != InvalidCode
    requires dir[FirstWithCode(dir, code).value].kind == Closed
    ensures var r := Join(dir, code, email).directory;
      var i := FirstWithCode(dir, code).value;
      r[i] in MyCommunities(r, email) && r[i].id == dir[i].id
  {
  }

  // ---------------------------------------------------------------------
  // The component state that `handleJoinWithCode` works on

  class DashboardState {
    /** The remote community directory. */
    var directory: seq<Community>
    /** The invitation code input field. */
    var inviteCode: string
    var isJoining: bool
    /** The community whose page the browser is sent to, once one is. */
    var redirectTo: Option<string>

    constructor (dir: seq<Community>)
      ensures directory == dir && inviteCode == "" && !isJoining && redirectTo == None
    {
      directory := dir;
      inviteCode := "";
      isJoining := false;
      redirectTo := None;
    }

    /** `handleJoinWithCode` for the signed-in user `email`. A blank code does
        nothing (None); otherwise the outcome is that of `Join` on the trimmed
        code, and the directory becomes Join's. */
    method HandleJoinWithCode(email: string) returns (outcome: Option<JoinOutcome>)
      modifies this
      ensures JsString.Trim(old(inviteCode)) == [] ==>
        && outcome == None
        && directory == old(directory) && inviteCode == old(inviteCode)
        && isJoining == old(isJoining) && redirectTo == old(redirectTo)
      ensures JsString.Trim(old(inviteCode)) != [] ==>
        var r := Join(old(directory), JsString.Trim(old(inviteCode)), email);
        && outcome == Some(r.outcome)
        && directory == r.directory
        && !isJoining
        && (r.outcome == InvalidCode ==> inviteCode == old(inviteCode) && redirectTo == old(redirectTo))
        && (r.outcome != InvalidCode ==> inviteCode == "" && redirectTo == Some(r.outcome.communityId))
    {
      var code := JsString.Trim(inviteCode);
      if code == [] {
        return None;
      }
      isJoining := true;
      var found := FirstWithCode(directory, code);
      if found.None? {
        isJoining := false;
        return Some(InvalidCode);
      }
      var community := directory[found.value];
      var currentMembers := MembersOf(community);
      if email !in currentMembers {
        directory := UpdateMembers(directory, community.id, currentMembers + [email]);
        outcome := Some(Joined(community.id));
      } else {
        outcome := Some(AlreadyMember(community.id));
      }
      inviteCode := "";
      isJoining := false;
      redirectTo := Some(community.id);
    }
  }
}
