/** Joining a server by its invite code (src/dbRelated/joinServer.ts). */
module Joining {
  import opened Models
  import opened PrismaDb
  import opened Outcomes

  const InviteCodeInvalid: string := "Invite Code invalid!"
  const AlreadyMember: string := "User is already a member!"

  /**
   * joinServer: find the server holding the invite code; refuse an unknown
   * code and a user who already has a membership row in it; otherwise create
   * the membership, with the column's default role, and answer it together
   * with the server. Only the membership table changes, and only on success.
   */
  method JoinServer(db: Database, user: User, inviteCode: string) returns (r: Outcome<(ServerMember, Server)>)
    requires db.Valid()
    modifies db
    ensures db.Valid()
    ensures old(db.OwnersAreAdmins()) ==> db.OwnersAreAdmins()
    ensures !r.Ok? ==> db.Unchanged()
    ensures !InviteCodeTaken(old(db.servers), inviteCode) ==> r == Err(Text(InviteCodeInvalid))
    ensures forall id :: id in old(db.servers) && old(db.servers)[id].inviteCode == inviteCode ==>
              && (IsMemberRow(old(db.members), id, user.id) ==> r == Err(Text(AlreadyMember)))
              && (!IsMemberRow(old(db.members), id, user.id) && user.id !in old(db.users) ==>
                    r == Raised(RecordNotFound))
              && (!IsMemberRow(old(db.members), id, user.id) && user.id in old(db.users) ==>
                    && r == Ok((ServerMember(id, user.id, None), old(db.servers)[id]))
                    && db.members == old(db.members) + {r.value.0}
                    && IsMemberRow(db.members, id, user.id))
    ensures r.Ok? ==> && db.users == old(db.users) && db.servers == old(db.servers)
                      && db.channels == old(db.channels) && db.messages == old(db.messages)
  {
    var serverWithInviteCode := db.FindServerByInviteCode(inviteCode);
    match serverWithInviteCode
    case None =>
      r := Err(Text(InviteCodeInvalid));
    case Some(server) =>
      if IsMemberRow(db.members, server.id, user.id) {
        r := Err(Text(AlreadyMember));
      } else {
        var joined := db.CreateMember(server.id, user.id);
        match joined
        case Raises(e) =>
          r := Raised(e);
        case Row(member) =>
          r := Ok((member, server));
      }
  }
}
