/**
 * The database tables the core reads and writes through Prisma, held in
 * memory: users (by id), servers, server members, channels and messages.
 * Each Prisma call the core makes is a method or function of `Database`
 * with the outcome Prisma gives it: the row, or the error it throws.
 */
module PrismaDb {
  import opened Models

  datatype Server = Server(
    id: int,
    name: string,
    description: Option<string>,
    isPublic: bool,
    inviteCode: string,
    ownerId: int)

  /** A membership row; a role of None stands for the column's default. */
  datatype ServerMember = ServerMember(serverId: int, userId: int, role: Option<string>)

  datatype Channel = Channel(id: int, name: string, serverId: int)

  /** The errors Prisma throws for the calls the core makes. */
  datatype DbError =
    | RecordNotFound            // delete or nested connect found no row
    | UniqueConstraintFailed    // a unique column already holds the value
    | ForeignKeyConstraintFailed

  /** The result of one Prisma call: a row, or a thrown error. */
  datatype DbResult<T> = Row(value: T) | Raises(error: DbError)

  const AdminRole: string := "admin"

  predicate InviteCodeTaken(servers: map<int, Server>, code: string) {
    exists id :: id in servers && servers[id].inviteCode == code
  }

  predicate IsMemberRow(members: set<ServerMember>, serverId: int, userId: int) {
    exists m :: m in members && m.serverId == serverId && m.userId == userId
  }

  /**
   * The constraints of the schema the core relies on: ids are keys below
   * their counters, invite codes are unique, (serverId, userId) is unique
   * among members, and foreign keys hold.
   */
  ghost predicate Schema(users: set<int>, servers: map<int, Server>, members: set<ServerMember>,
                         channels: map<int, Channel>, nextServerId: int, nextChannelId: int)
  {
    && (forall id :: id in servers ==> servers[id].id == id && id < nextServerId && servers[id].ownerId in users)
    && (forall a, b :: a in servers && b in servers && servers[a].inviteCode == servers[b].inviteCode ==> a == b)
    && (forall m :: m in members ==> m.serverId in servers && m.userId in users)
    && (forall a, b :: a in members && b in members && a.serverId == b.serverId && a.userId == b.userId ==> a == b)
    && (forall id :: id in channels ==> channels[id].id == id && id < nextChannelId && channels[id].serverId in servers)
  }

  /** The member rows of servers other than `id`. */
  function MembersOutside(members: set<ServerMember>, id: int): (r: set<ServerMember>)
    ensures forall m :: m in r <==> m in members && m.serverId != id
  {
    set m | m in members && m.serverId != id
  }

  /** The channels of servers other than `id`. */
  function ChannelsOutside(channels: map<int, Channel>, id: int): (r: map<int, Channel>)
    ensures forall c :: c in r <==> c in channels && channels[c].serverId != id
    ensures forall c :: c in r ==> r[c] == channels[c]
  {
    map c | c in channels && channels[c].serverId != id :: channels[c]
  }

  /** The ids of the channels of server `id`. */
  function ChannelsOf(channels: map<int, Channel>, id: int): (r: set<int>)
    ensures forall c :: c in r <==> c in channels && channels[c].serverId == id
  {
    set c | c in channels && channels[c].serverId == id
  }

  /** Deleting a server together with its members and channels keeps the schema's constraints. */
  lemma DeleteServerKeepsSchema(users: set<int>, servers: map<int, Server>, members: set<ServerMember>,
                                channels: map<int, Channel>, nextServerId: int, nextChannelId: int, id: int)
    requires Schema(users, servers, members, channels, nextServerId, nextChannelId)
    ensures Schema(users, servers - {id}, MembersOutside(members, id), ChannelsOutside(channels, id),
                   nextServerId, nextChannelId)
  {
  }

  class Database {
    var users: set<int>
    var servers: map<int, Server>
    var members: set<ServerMember>
    var channels: map<int, Channel>
    var messages: seq<Message>
    var nextServerId: int
    var nextChannelId: int

    /**
     * The constraints of the schema the core relies on: ids are keys, invite
     * codes are unique, (serverId, userId) is unique among members, and
     * foreign keys hold.
     */
    ghost predicate Valid()
      reads this
    {
      Schema(users, servers, members, channels, nextServerId, nextChannelId)
    }

    /** The rule the core keeps on top of the schema: every server's owner is an admin member of it. */
    ghost predicate OwnersAreAdmins()
      reads this
    {
      forall id :: id in servers ==> ServerMember(id, servers[id].ownerId, Some(AdminRole)) in members
    }

    /** Every table and counter is as it was in the earlier state. */
    twostate predicate Unchanged()
      reads this
    {
      && users == old(users) && servers == old(servers) && members == old(members)
      && channels == old(channels) && messages == old(messages)
      && nextServerId == old(nextServerId) && nextChannelId == old(nextChannelId)
    }

    constructor (users: set<int>, messages: seq<Message>)
      ensures Valid() && OwnersAreAdmins()
      ensures this.users == users && this.messages == messages
      ensures servers == map[] && members == {} && channels == map[]
    {
      this.users := users;
      this.messages := messages;
      servers := map[];
      members := {};
      channels := map[];
      nextServerId := 1;
      nextChannelId := 1;
    }

    /** prisma.server.findUnique by id. */
    function FindServerById(id: int): (r: Option<Server>)
      reads this
      ensures r.Some? <==> id in servers
      ensures r.Some? ==> r.value == servers[id]
    {
      if id in servers then Some(servers[id]) else None
    }

    /** prisma.server.findUnique by the (unique) invite code. */
    method FindServerByInviteCode(code: string) returns (r: Option<Server>)
      requires Valid()
      ensures r.None? <==> !InviteCodeTaken(servers, code)
      ensures r.Some? ==> r.value.id in servers && servers[r.value.id] == r.value && r.value.inviteCode == code
    {
      if exists id :: id in servers && servers[id].inviteCode == code {
        var id :| id in servers && servers[id].inviteCode == code;
        r := Some(servers[id]);
      } else {
        r := None;
      }
    }

    /** prisma.serverMember.create connecting an existing user and server. */
    method CreateMember(serverId: int, userId: int) returns (r: DbResult<ServerMember>)
      requires Valid()
      modifies this
      ensures Valid()
      ensures users == old(users) && servers == old(servers) && channels == old(channels)
      ensures messages == old(messages) && nextServerId == old(nextServerId) && nextChannelId == old(nextChannelId)
      ensures userId !in old(users) || serverId !in old(servers) ==> r == Raises(RecordNotFound) && members == old(members)
      ensures userId in old(users) && serverId in old(servers) && IsMemberRow(old(members), serverId, userId) ==>
                r == Raises(UniqueConstraintFailed) && members == old(members)
      ensures userId in old(users) && serverId in old(servers) && !IsMemberRow(old(members), serverId, userId) ==>
                r == Row(ServerMember(serverId, userId, None)) && members == old(members) + {r.value}
    {
      if userId !in users || serverId !in servers {
        r := Raises(RecordNotFound);
      } else if IsMemberRow(members, serverId, userId) {
        r := Raises(UniqueConstraintFailed);
      } else {
        var row := ServerMember(serverId, userId, None);
        members := members + {row};
        r := Row(row);
      }
    }

    /**
     * prisma.server.create with its owner created as an admin member in the
     * same statement. Ids come from a counter.
     */
    method CreateServer(name: string, description: Option<string>, isPublic: bool, inviteCode: string, ownerId: int)
      returns (r: DbResult<Server>)
      requires Valid()
      modifies this
      ensures Valid()
      ensures users == old(users) && channels == old(channels) && messages == old(messages)
      ensures nextChannelId == old(nextChannelId)
      ensures ownerId !in old(users) ==> r == Raises(ForeignKeyConstraintFailed)
      ensures ownerId in old(users) && InviteCodeTaken(old(servers), inviteCode) ==> r == Raises(UniqueConstraintFailed)
      ensures r.Raises? ==> servers == old(servers) && members == old(members) && nextServerId == old(nextServerId)
      ensures ownerId in old(users) && !InviteCodeTaken(old(servers), inviteCode) ==>
                && r == Row(Server(old(nextServerId), name, description, isPublic, inviteCode, ownerId))
                && servers == old(servers)[r.value.id := r.value]
                && members == old(members) + {ServerMember(r.value.id, ownerId, Some(AdminRole))}
                && nextServerId == old(nextServerId) + 1
    {
      if ownerId !in users {
        r := Raises(ForeignKeyConstraintFailed);
      } else if exists id :: id in servers && servers[id].inviteCode == inviteCode {
        r := Raises(UniqueConstraintFailed);
      } else {
        var server := Server(nextServerId, name, description, isPublic, inviteCode, ownerId);
        servers := servers[server.id := server];
        members := members + {ServerMember(server.id, ownerId, Some(AdminRole))};
        nextServerId := nextServerId + 1;
        r := Row(server);
      }
    }

    /** prisma.channel.create connecting an existing server. */
    method CreateChannel(name: string, serverId: int) returns (r: DbResult<Channel>)
      requires Valid()
      modifies this
      ensures Valid()
      ensures users == old(users) && servers == old(servers) && members == old(members)
      ensures messages == old(messages) && nextServerId == old(nextServerId)
      ensures serverId !in old(servers) ==> r == Raises(ForeignKeyConstraintFailed)
      ensures r.Raises? ==> channels == old(channels) && nextChannelId == old(nextChannelId)
      ensures serverId in old(servers) ==>
                && r == Row(Channel(old(nextChannelId), name, serverId))
                && channels == old(channels)[r.value.id := r.value]
                && nextChannelId == old(nextChannelId) + 1
    {
      if serverId !in servers {
        r := Raises(ForeignKeyConstraintFailed);
      } else {
        var channel := Channel(nextChannelId, name, serverId);
        channels := channels[channel.id := channel];
        nextChannelId := nextChannelId + 1;
        r := Row(channel);
      }
    }

    /**
     * prisma.server.delete where id and ownerId: throws when no server matches
     * both. Deleting a server deletes its member rows, its channels and their
     * messages with it.
     */
    method DeleteServer(id: int, ownerId: int) returns (r: DbResult<Server>)
      requires Valid()
      modifies this
      ensures Valid()
      ensures users == old(users) && nextServerId == old(nextServerId) && nextChannelId == old(nextChannelId)
      ensures !(id in old(servers) && old(servers)[id].ownerId == ownerId) ==>
                r == Raises(RecordNotFound) && servers == old(servers) && members == old(members)
                && channels == old(channels) && messages == old(messages)
      ensures id in old(servers) && old(servers)[id].ownerId == ownerId ==>
                && r == Row(old(servers)[id])
                && servers == old(servers) - {id}
                && members == MembersOutside(old(members), id)
                && channels == ChannelsOutside(old(channels), id)
                && messages == WithoutChannels(old(messages), ChannelsOf(old(channels), id))
    {
      if id in servers && servers[id].ownerId == ownerId {
        DeleteServerKeepsSchema(users, servers, members, channels, nextServerId, nextChannelId, id);
        r := Row(servers[id]);
        messages := WithoutChannels(messages, ChannelsOf(channels, id));
        servers := servers - {id};
        members := MembersOutside(members, id);
        channels := ChannelsOutside(channels, id);
      } else {
        r := Raises(RecordNotFound);
      }
    }

    /**
     * prisma.serverMember.delete by the (serverId, userId) key, including the
     * server: throws when there is no such row.
     */
    method DeleteMember(serverId: int, userId: int) returns (r: DbResult<(ServerMember, Server)>)
      requires Valid()
      modifies this
      ensures Valid()
      ensures users == old(users) && servers == old(servers) && channels == old(channels)
      ensures messages == old(messages) && nextServerId == old(nextServerId) && nextChannelId == old(nextChannelId)
      ensures !IsMemberRow(old(members), serverId, userId) ==> r == Raises(RecordNotFound) && members == old(members)
      ensures IsMemberRow(old(members), serverId, userId) ==>
                && r.Row?
                && r.value.0 in old(members) && r.value.0.serverId == serverId && r.value.0.userId == userId
                && r.value.1 == old(servers)[serverId]
                && members == old(members) - {r.value.0}
    {
      if exists m :: m in members && m.serverId == serverId && m.userId == userId {
        var m :| m in members && m.serverId == serverId && m.userId == userId;
        r := Row((m, servers[serverId]));
        members := members - {m};
      } else {
        r := Raises(RecordNotFound);
      }
    }
  }

  /** The messages whose channel is not in `gone`, in their order. */
  function WithoutChannels(ms: seq<Message>, gone: set<int>): (r: seq<Message>)
    ensures forall x :: x in r <==> x in ms && x.channelId !in gone
  {
    if |ms| == 0 then []
    else if ms[0].channelId in gone then WithoutChannels(ms[1..], gone)
    else [ms[0]] + WithoutChannels(ms[1..], gone)
  }

  // -----------------------------------------------------------------------
  // prisma.message.findMany where channelId and createdAt < olderThan,
  // ordered by createdAt descending, take `limit`.

  /** The where clause: rows of the channel created strictly before `olderThan`, in table order. */
  function WhereOlder(ms: seq<Message>, channelId: int, olderThan: int): (r: seq<Message>)
    ensures forall x :: x in r ==> x.channelId == channelId && x.createdAt < olderThan
    ensures multiset(r) <= multiset(ms)
    ensures forall x :: x in ms && x.channelId == channelId && x.createdAt < olderThan ==> x in r
  {
    if |ms| == 0 then []
    else
      var rest := WhereOlder(ms[1..], channelId, olderThan);
      assert ms == [ms[0]] + ms[1..];
      if ms[0].channelId == channelId && ms[0].createdAt < olderThan then [ms[0]] + rest else rest
  }

  /** Insert `m` into a newest-first sequence, after every row not older than it. */
  function InsertNewestFirst(m: Message, s: seq<Message>): (r: seq<Message>)
    requires Descending(s)
    ensures Descending(r)
    ensures multiset(r) == multiset(s) + multiset{m}
  {
    if |s| == 0 then [m]
    else if s[0].createdAt >= m.createdAt then
      var rest := InsertNewestFirst(m, s[1..]);
      assert s == [s[0]] + s[1..];
      PrependKeepsDescending(s[0], rest);
      [s[0]] + rest
    else [m] + s
  }

  lemma PrependKeepsDescending(x: Message, rest: seq<Message>)
    requires Descending(rest)
    requires forall y :: y in multiset(rest) ==> y.createdAt <= x.createdAt
    ensures Descending([x] + rest)
  {
    forall j | 0 <= j < |rest| ensures rest[j].createdAt <= x.createdAt {
      assert rest[j] in multiset(rest);
    }
  }

  /** orderBy createdAt descending; rows with equal `createdAt` come in some fixed order. */
  function OrderByCreatedAtDesc(ms: seq<Message>): (r: seq<Message>)
    ensures Descending(r)
    ensures multiset(r) == multiset(ms)
  {
    if |ms| == 0 then []
    else
      assert ms == [ms[0]] + ms[1..];
      InsertNewestFirst(ms[0], OrderByCreatedAtDesc(ms[1..]))
  }

  /** take `n`: at most the first `n` rows. */
  function Take(ms: seq<Message>, n: nat): (r: seq<Message>)
    ensures |r| == if n < |ms| then n else |ms|
    ensures r == ms[..|r|]
  {
    if n < |ms| then ms[..n] else ms
  }
}
