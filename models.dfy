/**
 * Records shared by the message cache and the database tables
 * (src/models/models.ts and the Message interface of src/redis/messageCaching.ts).
 * Timestamps are integer milliseconds since the epoch.
 */
module Models {

  datatype Option<+T> = None | Some(value: T)

  /** An authenticated user, as carried on a socket or in a request body. */
  datatype User = User(id: int, googleId: string, name: string, email: string, picture: string)

  /** One link found in a message, with whether it points at an image. */
  datatype UrlData = UrlData(link: string, isImage: bool)

  /**
   * A chat message. `createdAt` is the sole ordering key; `editedAt` is absent
   * until the message is edited.
   */
  datatype Message = Message(
    id: string,
    content: string,
    links: Option<seq<UrlData>>,
    createdAt: int,
    userId: int,
    channelId: int,
    user: Option<User>,
    edited: bool,
    editedAt: Option<int>)

  /** One member of a Redis sorted set together with its score. */
  datatype Entry = Entry(score: int, member: Message)

  /** The messages of a sequence of entries, in the same order. */
  function Members(s: seq<Entry>): (r: seq<Message>)
    ensures |r| == |s|
    ensures forall i :: 0 <= i < |s| ==> r[i] == s[i].member
  {
    seq(|s|, i requires 0 <= i < |s| => s[i].member)
  }

  /** The sequence read back to front. */
  function Reverse<T>(s: seq<T>): (r: seq<T>)
    ensures |r| == |s|
    ensures forall i :: 0 <= i < |s| ==> r[i] == s[|s| - 1 - i]
  {
    seq(|s|, i requires 0 <= i < |s| => s[|s| - 1 - i])
  }

  /** Messages in non-decreasing `createdAt` order (oldest first). */
  predicate Ascending(s: seq<Message>) {
    forall i, j :: 0 <= i < j < |s| ==> s[i].createdAt <= s[j].createdAt
  }

  /** Messages in non-increasing `createdAt` order (newest first). */
  predicate Descending(s: seq<Message>) {
    forall i, j :: 0 <= i < j < |s| ==> s[i].createdAt >= s[j].createdAt
  }

  lemma ReverseDescendingIsAscending(s: seq<Message>)
    requires Descending(s)
    ensures Ascending(Reverse(s))
  {
  }
}
