# Channel message cache and server membership, modelled in Dafny

This project models two parts of a chat backend.

- **Per-channel recency cache** (`src/redis/messageCaching.ts`). It keeps one Redis sorted set per channel, under the key `channel:{channelId}:messages`.
  - Each member is a message, scored by its creation time in milliseconds.
  - Caching a message adds it, trims the set to the 100 highest-scored entries and sets a 24-hour time-to-live.
  - Editing or deleting a message scans the set in ascending order for the first entry with that message id.
    - An edit rewrites the entry under its old score.
    - A delete removes it.
  - `getRecentMessages` returns the newest entries in ascending order.
  - `hasCachedMessages` tests whether the key exists.
  - `loadOlderMessages` serves a backward page from the cache when the oldest cached message is older than the page boundary. Otherwise it falls back to a database query, `fetchMessagesFromDB`.
- **Server handlers** (`src/dbRelated/joinServer.ts`, `leaveServer.ts`, `createServerName.ts`).
  - Joining uses an invite code.
  - Leaving deletes the whole server when the owner leaves, and otherwise one membership.
  - Creating a server adds its owner as admin and a default channel named `default-{id}`.

The files:

- `models.dfy`: the message, user and cache-entry values, plus reversal.
- `decimal.dfy`: how `${n}` renders an integer, with a parser that proves the rendering injective.
- `sorted_sets.dfy`: the Redis sorted-set commands the cache issues, as functions on a list of entries kept ascending by score with distinct members. This includes Redis's rank arithmetic with negative indices.
- `redis_store.dfy`: a Redis keyspace as a class. A key whose set becomes empty is deleted together with its time-to-live.
- `prisma_db.dfy`: the tables as a class with one method per Prisma call. Each method either returns the row or raises the error Prisma throws.
- `message_caching.dfy`: the cache operations and their properties.
- `outcomes.dfy`, `join_server.dfy`, `leave_server.dfy`, `create_server_name.dfy`: the server handlers. A handler either returns a value, returns an `Error`, or lets a Prisma error propagate. The routes in `src/index.ts` that call `joinServer` and `createServerName` answer a returned `Error` with HTTP 400 and a propagated error with HTTP 500. No route there calls `leaveServer`.

Where the code and the system's design documentation differ, the model follows the code:

- The design documentation says every mutation of the cache refreshes its time-to-live. In the code only `cacheMessage` calls EXPIRE.
  - `editMessageFromCache` and `deleteMessageFromCache` leave the time-to-live as it was.
  - Editing the only cached message of a channel removes the key, which discards its time-to-live. It then re-creates the key with no time-to-live at all.
  - `MessageCaching.EditMessageFromCache` states this.
- The design documentation describes a cache put as keyed by `createdAt`. In the code the sorted-set member is the whole serialized message. Two messages with one creation time are therefore both kept, and re-caching a message with changed content adds a second entry.

## Model

| member | source | states |
|---|---|---|
| MessageCaching.ChannelMessagesKey | src/redis/messageCaching.ts:74-75 | the key `channel:{id}:messages`, with the id rendered in decimal; ChannelIdOfKey reads the id back (ChannelKeyRoundTrip) |
| MessageCaching.FetchMessagesFromDB | src/redis/messageCaching.ts:51-71 | at most `limit` messages: the channel's rows created before the boundary, newest first, the first `limit` of them, read back to front; FetchMessagesAreNewestOlder states what that page is |
| SortedSets.RankWindow | src/redis/messageCaching.ts:169 | the half-open window of ranks Redis selects for inclusive start and stop indices, negative ones counting from the end; it lies within the set |
| SortedSets.ZScore | src/redis/messageCaching.ts:106 | ZSCORE: the member's score, or none when it is absent |
| SortedSets.ZRem | src/redis/messageCaching.ts:125 | ZREM of one member; ZRemSpec states its effect |
| SortedSets.ZAdd | src/redis/messageCaching.ts:128 | ZADD of one member, replacing any earlier entry of it; ZAddSpec states its effect |
| SortedSets.ZRange | src/redis/messageCaching.ts:96 | ZRANGE by rank, ascending: never more entries than the set has, and `stop - start + 1` of them for ranks within the set |
| SortedSets.ZRevRange | src/redis/messageCaching.ts:169 | ZREVRANGE by rank, highest score first: never more entries than the set has, and `stop - start + 1` of them for ranks within the set |
| SortedSets.ZRemRangeByRank | src/redis/messageCaching.ts:85 | ZREMRANGEBYRANK: removes `stop - start + 1` entries for ranks within the set; TrimKeepsHighest states what 0 -101 keeps |
| SortedSets.ZRevRangeByScore | src/redis/messageCaching.ts:37-42 | ZREVRANGEBYSCORE max -inf LIMIT 0 count; RevRangeByScoreIsNewestBelow states which entries it yields |
| RedisStore.Redis.ZRange | src/redis/messageCaching.ts:30 | ZRANGE on the set stored at a key, a missing key reading as the empty set |
| RedisStore.Redis.ZRevRange | src/redis/messageCaching.ts:169 | ZREVRANGE on the set stored at a key, a missing key reading as the empty set; RecentMessagesAreNewest states what the cache reads with it |
| RedisStore.Redis.ZRevRangeByScore | src/redis/messageCaching.ts:37-42 | ZREVRANGEBYSCORE on the set stored at a key, a missing key reading as the empty set; LoadOlderMessagesAreOlder states what the cache reads with it |
| RedisStore.Redis.ZScore | src/redis/messageCaching.ts:106 | ZSCORE on the set stored at a key: a score exactly when the member is in the set, none for a missing key |
| RedisStore.Redis.Exists | src/redis/messageCaching.ts:179 | EXISTS: 1 when the key is present, 0 otherwise |
| PrismaDb.Database.FindServerById | src/dbRelated/leaveServer.ts:6-10 | the server with the id exactly when one exists, and none otherwise |
| ServerCreation.GenerateInviteCodeFromServerId | src/dbRelated/createServerName.ts:3-14 | the given string (the caller passes the server's name), a dash and the random part, which is a parameter here; InviteCodeDeterminesParts shows that the code determines both |
| ServerCreation.DefaultChannelName | src/dbRelated/createServerName.ts:46 | `default-{id}`, the prefix followed by at least one character; DefaultChannelNamesDiffer shows that distinct ids give distinct names |
| MessageCaching.ChannelKeyRoundTrip | src/redis/messageCaching.ts:74-75 | the channel id can be read back from its cache key |
| MessageCaching.ChannelKeyInjective | src/redis/messageCaching.ts:75 | distinct channels have distinct keys, so no operation on one channel touches another channel's set |
| Decimal.ParseIntToString | src/redis/messageCaching.ts:75 | the decimal rendering used in the key parses back to the integer |
| Decimal.IntToStringInjective | src/redis/messageCaching.ts:75 | distinct integers render differently |
| SortedSets.IndexOfMember | src/redis/messageCaching.ts:106 | finds the position of a member exactly when it is present, and no earlier entry holds it |
| SortedSets.UpperBound | src/redis/messageCaching.ts:37-41 | the boundary between entries scored at most `max` and those above it |
| SortedSets.ZAddSpec | src/redis/messageCaching.ts:82 | ZADD keeps the set sorted with distinct members; the member is present with the given score; every other entry is kept; the size grows by one exactly when the member was new |
| SortedSets.ZRemSpec | src/redis/messageCaching.ts:125 | ZREM removes exactly the member's entry and keeps the rest a sorted set; the size drops by one exactly when it was present |
| SortedSets.TrimKeepsHighest | src/redis/messageCaching.ts:84-85 | ZREMRANGEBYRANK 0 -(cap+1) keeps exactly the `cap` highest-ranked entries, or all of them when there are fewer |
| SortedSets.RemRangeKeepsZSet | src/redis/messageCaching.ts:85 | ZREMRANGEBYRANK keeps the set sorted with distinct members |
| SortedSets.RecentCount | src/redis/messageCaching.ts:169 | how many entries ZREVRANGE 0 (limit-1) yields: min(limit, n) for a limit of at least 1, and n+limit (at least 0) otherwise |
| SortedSets.RevRangeIsNewestSuffix | src/redis/messageCaching.ts:169-173 | ZREVRANGE 0 (limit-1), reversed, is the ascending run of the highest-scored entries |
| SortedSets.RevRangeByScoreIsNewestBelow | src/redis/messageCaching.ts:37-43 | ZREVRANGEBYSCORE max -inf LIMIT 0 count, reversed, is the ascending run of the `count` highest entries scored at most `max` |
| SortedSets.UpperBoundSplits | src/redis/messageCaching.ts:37-41 | in a sorted set an entry is scored at most `max` exactly when it lies before the boundary |
| RedisStore.Redis.ZAdd | src/redis/messageCaching.ts:82 | the key holds the ZADD result; the time-to-live is untouched |
| RedisStore.Redis.ZRem | src/redis/messageCaching.ts:125 | answers 1 exactly when the member was present; an emptied key is deleted along with its time-to-live |
| RedisStore.Redis.ZRemRangeByRank | src/redis/messageCaching.ts:85 | the key holds the trimmed set, or is deleted along with its time-to-live when empty |
| RedisStore.Redis.Expire | src/redis/messageCaching.ts:88 | sets the time-to-live of an existing key and answers whether the key exists |
| MessageCaching.CacheMessage | src/redis/messageCaching.ts:78-89 | the channel's set becomes the trimmed ZADD result and its time-to-live becomes 86400; other keys are unchanged; the store invariant is kept |
| MessageCaching.CacheMessageKeepsNewest | src/redis/messageCaching.ts:81-85 | after caching, the channel holds between 1 and 100 entries, the highest-scored run of the set with the message added; every dropped entry scores no higher than every kept one |
| MessageCaching.CacheMessageStoresMessage | src/redis/messageCaching.ts:81-85 | nothing but the message is added; the message is kept with its creation time as score unless 100 entries no older than it fill the cache; with fewer than 100 cached it is always kept; scores stay creation times |
| MessageCaching.FirstWithId | src/redis/messageCaching.ts:96-104 | the first entry in ascending order whose message has the id, or none exactly when no entry has it |
| MessageCaching.EditMessageFromCache | src/redis/messageCaching.ts:92-139 | answers true exactly when some cached message has the id; then the set is the edit of the first such entry, otherwise nothing changes; the time-to-live is lost exactly when that entry was the only one |
| MessageCaching.EditRewritesEntry | src/redis/messageCaching.ts:104-128 | the edit replaces the entry by its rewrite under the same score (new content, marked edited, same creation time and id); every other entry stays; the set stays a sorted set with creation-time scores |
| MessageCaching.EditKeepsOtherEntries | src/redis/messageCaching.ts:124-128 | when ids are distinct, an edit keeps the number of entries and every entry except the edited one |
| MessageCaching.DeleteMessageFromCache | src/redis/messageCaching.ts:142-162 | answers true exactly when some cached message has the id; then the first such entry is removed, and an emptied key is deleted; otherwise nothing changes |
| MessageCaching.DeleteRemovesEntry | src/redis/messageCaching.ts:150-158 | a delete removes exactly that one entry, keeps the order and the scores, and with distinct ids leaves no message with the id |
| MessageCaching.GetRecentMessages | src/redis/messageCaching.ts:165-174 | the result is the ascending run of the RecentCount highest-scored cached messages |
| MessageCaching.RecentMessagesAreNewest | src/redis/messageCaching.ts:168-173 | for a limit of at least 1: min(limit, size) messages, none scored below a message left out, in ascending creation order |
| MessageCaching.HasCachedMessages | src/redis/messageCaching.ts:177-181 | true exactly when the channel's set is non-empty |
| MessageCaching.HasCachedIffRecentNonEmpty | src/redis/messageCaching.ts:165-181 | the cache has messages exactly when a recent page of at least one is non-empty |
| MessageCaching.LoadOlderMessages | src/redis/messageCaching.ts:27-49 | when the oldest cached message is older than the boundary, the result is the cache page; otherwise it is the database page |
| MessageCaching.CachePageIsOlder | src/redis/messageCaching.ts:35-43 | the cache page holds min(limit, k) of the k cached messages older than the boundary, and only such messages; it is non-empty when the cache covers the request and limit is at least 1 |
| MessageCaching.CachePageIsNewest | src/redis/messageCaching.ts:37-43 | the cache page is ascending, and holds every cached message older than the boundary that is newer than one of its own |
| MessageCaching.FetchMessagesAreNewestOlder | src/redis/messageCaching.ts:51-71 | min(limit, n) of the n messages of the channel older than the boundary, ascending, drawn from the table; none left out is newer than one returned |
| MessageCaching.LoadOlderMessagesAreOlder | src/redis/messageCaching.ts:27-49 | whichever store answers: at most limit messages of the channel, all older than the boundary, ascending; non-empty when the cache covers the request |
| PrismaDb.WhereOlder | src/redis/messageCaching.ts:57-60 | exactly the messages of the channel created before the boundary, drawn from the table |
| PrismaDb.OrderByCreatedAtDesc | src/redis/messageCaching.ts:64-66 | a newest-first permutation |
| PrismaDb.Take | src/redis/messageCaching.ts:67 | the first min(limit, n) rows |
| PrismaDb.WithoutChannels | src/dbRelated/leaveServer.ts:14-19 | the messages outside the deleted channels, and only those |
| PrismaDb.Database.FindServerByInviteCode | src/dbRelated/joinServer.ts:7-14 | finds the server holding the code exactly when one does |
| PrismaDb.Database.CreateMember | src/dbRelated/joinServer.ts:20-32 | a missing user or server is RecordNotFound; an existing row is a unique violation; otherwise one default-role row is added; the schema invariant is kept |
| PrismaDb.Database.CreateServer | src/dbRelated/createServerName.ts:26-43 | an unknown owner is a foreign-key failure; a taken invite code is a unique violation; otherwise the server gets the next id, and its owner gets an admin row |
| PrismaDb.Database.CreateChannel | src/dbRelated/createServerName.ts:44-49 | a missing server is a foreign-key failure; otherwise the channel gets the next id |
| PrismaDb.Database.DeleteServer | src/dbRelated/leaveServer.ts:14-19 | unless a server matches both id and owner, RecordNotFound and no change; otherwise the server, its member rows, its channels and their messages are removed |
| PrismaDb.Database.DeleteMember | src/dbRelated/leaveServer.ts:23-33 | RecordNotFound when the row is missing; otherwise exactly that row is removed and returned with its server |
| Joining.JoinServer | src/dbRelated/joinServer.ts:4-44 | an unknown code gives "Invite Code invalid!"; an existing member gives "User is already a member!"; otherwise one default-role membership is added and returned with the server; nothing changes on failure; the schema and the owners-are-admins rule are kept |
| Leaving.LeaveServer | src/dbRelated/leaveServer.ts:4-37 | the owner's leave deletes the server with its members, channels and their messages, keeping every other server, member row, channel and message; anyone else's leave removes exactly their membership, or raises RecordNotFound with no change; the schema and the owners-are-admins rule are kept |
| ServerCreation.CreateServerName | src/dbRelated/createServerName.ts:16-57 | a name shorter than 2 is refused; a failed server insert is returned wrapped and changes nothing; otherwise the server (private unless asked), its admin owner and the channel `default-{id}` are created |
| ServerCreation.InviteCodeDeterminesParts | src/dbRelated/createServerName.ts:3-14 | with random parts of one length, the invite code determines the name and the random part |
| ServerCreation.DefaultChannelNamesDiffer | src/dbRelated/createServerName.ts:44-49 | distinct servers get distinct default channel names |

## Left out

- The clock. The model keeps the seconds EXPIRE set, but time does not pass and keys never expire.
- Concurrency. Each operation runs alone, so the edit's ZSCORE can never be empty. In the model that branch (src/redis/messageCaching.ts:108-111) cannot be taken.
- JSON. Members are message values, not serialized text.
  - The catch of a failed parse (src/redis/messageCaching.ts:132-135) cannot be taken.
  - Dates are integers in milliseconds, so `parseFloat` of the score gives back the creation time exactly.
  - Real Redis orders entries with equal scores by their serialized text. The model places a newly added entry after the existing entries with its score.
- SortedSets.ZAdd and the other commands: scores are integers. Floating-point scores and `-inf` appear only as the unbounded lower end of ZREVRANGEBYSCORE.
- MessageCaching.EditMessageFromCache and MessageCaching.DeleteMessageFromCache: the message id is taken as a string.
  - The source compares it with `==` against a `number | string` argument, and that coercion is not modelled.
  - The channel id is an integer, although the source also accepts a string.
- MessageCaching.FetchMessagesFromDB: the limit is a natural number. Prisma's negative `take` and the included `user` relation are not modelled.
- MessageCaching.GetRecentMessages and MessageCaching.LoadOlderMessages: their default limits (50 and 20) are ordinary parameters.
- The logging (`console.log`, `console.error`) and the `async` sequencing.
- Leaving.LeaveServer takes the number that `Number(serverId)` yields from the string argument (src/dbRelated/leaveServer.ts:4, 7, 16, 26). A string that gives NaN or a non-integer is not modelled.
- MessageCaching.LoadOlderMessages takes `oldestTimestamp` as a `Date`, a number of milliseconds here. The `/load-older-messages` route in `src/index.ts` passes the request body's value on unconverted. A JSON string would reach the comparison and `.getTime()` (src/redis/messageCaching.ts:35, 39), and that case is not modelled. `src/index.ts` is not part of this model.
- ServerCreation.GenerateInviteCodeFromServerId: the random part (`Math.random().toString(36).substring(2, 6)`) is a parameter with no constraint. It is not certain to have four characters.
- ServerCreation.CreateServerName: the name's length is its number of characters, where the source counts UTF-16 code units. The separate `PrismaClient` it creates is the same database here.
- PrismaDb.Database.DeleteServer: the database schema is not part of this model. Deleting a server is modelled as cascading to its memberships, its channels and their messages.
- PrismaDb.Database: ids come from counters that only grow. The thrown errors are reduced to three kinds.
