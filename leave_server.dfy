/** Leaving a server (src/dbRelated/leaveServer.ts). */
module Leaving {
  import opened Models
  import opened PrismaDb
  import opened Outcomes

  /** What leaving removed: the whole server when its owner leaves, otherwise one membership. */
  datatype Left =
    | ServerDeleted(server: Server)
    | MembershipDeleted(member: ServerMember, server: Server)

  /**
   * leaveServer: when the user owns the server, delete the server (and with
   * it its memberships, channels and their messages); otherwise delete the
   * user's membership row, which throws when there is none. Every server
   * that stays keeps its owner's admin row.
   */
  method LeaveServer(db: Database, user: User, serverId: int) returns (r: Outcome<Left>)
    requires db.Valid()
    modifies db
    ensures db.Valid()
    ensures old(db.OwnersAreAdmins()) ==> db.OwnersAreAdmins()
    ensures r.Err? == false
    ensures db.users == old(db.users)
    ensures serverId in old(db.servers) && old(db.servers)[serverId].ownerId == user.id ==>
              && r == Ok(ServerDeleted(old(db.servers)[serverId]))
              && db.servers == old(db.servers) - {serverId}
              && db.members == MembersOutside(old(db.members), serverId)
              && db.channels == ChannelsOutside(old(db.channels), serverId)
              && db.messages == WithoutChannels(old(db.messages), ChannelsOf(old(db.channels), serverId))
    ensures !(serverId in old(db.servers) && old(db.servers)[serverId].ownerId == user.id) ==>
              && db.servers == old(db.servers) && db.channels == old(db.channels) && db.messages == old(db.messages)
              && (!IsMemberRow(old(db.members), serverId, user.id) ==> r == Raised(RecordNotFound) && db.Unchanged())
              && (IsMemberRow(old(db.members), serverId, user.id) ==>
                    && r.Ok? && r.value.MembershipDeleted?
                    && r.value.member in old(db.members)
                    && r.value.member.serverId == serverId && r.value.member.userId == user.id
                    && r.value.server == old(db.servers)[serverId]
                    && db.members == old(db.members) - {r.value.member}
                    && !IsMemberRow(db.members, serverId, user.id))
  {
    var serverWithOwner := db.FindServerById(serverId);
    if serverWithOwner.Some? && serverWithOwner.value.ownerId == user.id {
      var deleted := db.DeleteServer(serverId, user.id);
      match deleted
      case Raises(e) =>
        r := Raised(e);
      case Row(server) =>
        r := Ok(ServerDeleted(server));
    } else {
      var left := db.DeleteMember(serverId, user.id);
      match left
      case Raises(e) =>
        r := Raised(e);
      case Row(pair) =>
        r := Ok(MembershipDeleted(pair.0, pair.1));
    }
  }
}
