/** Creating a server with its owner and a default channel (src/dbRelated/createServerName.ts). */
module ServerCreation {
  import opened Models
  import opened Decimal
  import opened PrismaDb
  import opened Outcomes

  const NameTooShort: string := "Server name length should be longer than 2 characters"

  /**
   * generateInviteCodeFromServerId: the text it is given, a dash, and a
   * random part (up to four base-36 digits of a random number, a parameter here).
   */
  function GenerateInviteCodeFromServerId(serverId: string, randomPart: string): (code: string)
    ensures |code| == |serverId| + 1 + |randomPart|
    ensures code[..|serverId|] == serverId && code[|serverId|] == '-'
    ensures code[|serverId| + 1..] == randomPart
  {
    serverId + "-" + randomPart
  }

  /** The name of a new server's first channel. */
  function DefaultChannelName(serverId: int): (name: string)
    ensures |name| > 8 && name[..8] == "default-"
  {
    "default-" + IntToString(serverId)
  }

  /**
   * An invite code determines the name it was made from and its random part,
   * among random parts of one length.
   */
  lemma InviteCodeDeterminesParts(a: string, ra: string, b: string, rb: string)
    requires |ra| == |rb|
    requires GenerateInviteCodeFromServerId(a, ra) == GenerateInviteCodeFromServerId(b, rb)
    ensures a == b && ra == rb
  {
    var ca := GenerateInviteCodeFromServerId(a, ra);
    assert |a| == |b|;
    assert a == ca[..|a|];
    assert b == ca[..|b|];
    assert ra == ca[|a| + 1..];
    assert rb == ca[|b| + 1..];
  }

  /** Distinct servers get distinct default channel names. */
  lemma DefaultChannelNamesDiffer(a: int, b: int)
    requires a != b
    ensures DefaultChannelName(a) != DefaultChannelName(b)
  {
    if DefaultChannelName(a) == DefaultChannelName(b) {
      assert IntToString(a) == DefaultChannelName(a)[8..];
      assert IntToString(b) == DefaultChannelName(b)[8..];
      IntToStringInjective(a, b);
    }
  }

  /**
   * createServerName: refuse a name shorter than 2; otherwise create the
   * server (public only when asked, the owner as its admin member) under an
   * invite code made from the name, then its channel `default-{id}`. A
   * failing server creation is returned wrapped and creates nothing.
   */
  method CreateServerName(db: Database, name: string, ownerId: int, description: Option<string>,
                          isPublic: Option<bool>, randomPart: string)
    returns (r: Outcome<(Server, Channel)>)
    requires db.Valid()
    modifies db
    ensures db.Valid()
    ensures old(db.OwnersAreAdmins()) ==> db.OwnersAreAdmins()
    ensures r.Raised? == false
    ensures db.users == old(db.users) && db.messages == old(db.messages)
    ensures |name| < 2 ==> r == Err(Text(NameTooShort)) && db.Unchanged()
    ensures |name| >= 2 && ownerId !in old(db.users) ==> r == Err(Wrapped(ForeignKeyConstraintFailed)) && db.Unchanged()
    ensures |name| >= 2 && ownerId in old(db.users) &&
            InviteCodeTaken(old(db.servers), GenerateInviteCodeFromServerId(name, randomPart)) ==>
              r == Err(Wrapped(UniqueConstraintFailed)) && db.Unchanged()
    ensures |name| >= 2 && ownerId in old(db.users) &&
            !InviteCodeTaken(old(db.servers), GenerateInviteCodeFromServerId(name, randomPart)) ==>
              var id := old(db.nextServerId);
              var server := Server(id, name, description, isPublic == Some(true),
                                   GenerateInviteCodeFromServerId(name, randomPart), ownerId);
              var channel := Channel(old(db.nextChannelId), DefaultChannelName(id), id);
              && r == Ok((server, channel))
              && db.servers == old(db.servers)[id := server]
              && db.members == old(db.members) + {ServerMember(id, ownerId, Some(AdminRole))}
              && db.channels == old(db.channels)[channel.id := channel]
  {
    if |name| < 2 {
      return Err(Text(NameTooShort));
    }
    var inviteCodeGenerated := GenerateInviteCodeFromServerId(name, randomPart);
    var public := if isPublic.Some? then isPublic.value else false;
    var created := db.CreateServer(name, description, public, inviteCodeGenerated, ownerId);
    match created
    case Raises(e) =>
      r := Err(Wrapped(e));
    case Row(server) =>
      var defaultChannel := db.CreateChannel(DefaultChannelName(server.id), server.id);
      match defaultChannel
      case Raises(e) =>
        r := Err(Wrapped(e));
      case Row(channel) =>
        r := Ok((server, channel));
  }
}
