/**
 * The part of the Reddit client the bots read, reduced to values: a streamed
 * comment is its identifier and its author's name, and an author's posting
 * history is the list of subreddit display names of their submissions,
 * newest first.
 */
module Reddit {

  /** One comment of `subreddit.stream.comments()`: `comment.id` and `comment.author.name`. */
  datatype Comment = Comment(id: string, author: string)

  /**
   * `user.submissions.new(limit=limit)`: the `limit` newest submissions of an
   * author whose whole history, newest first, is `history`.
   */
  function NewSubmissions(history: seq<string>, limit: nat): (r: seq<string>)
    ensures r <= history
    ensures |r| <= limit
    ensures |r| == limit || r == history
  {
    if |history| <= limit then history else history[..limit]
  }

  /**
   * One comment of the stream, with what the environment supplies around it:
   * the author's submission history as Reddit would return it, newest first,
   * and the cache entries that expire before the comment arrives.
   */
  datatype Event = Event(comment: Comment, history: seq<string>, expired: set<string>)

  /** The identifiers of the comments of `events`. */
  function CommentIds(events: seq<Event>): set<string> {
    if events == [] then {}
    else CommentIds(events[..|events| - 1]) + {events[|events| - 1].comment.id}
  }

  lemma CommentIdsSnoc(events: seq<Event>, i: nat)
    requires i < |events|
    ensures CommentIds(events[..i + 1]) == CommentIds(events[..i]) + {events[i].comment.id}
  {
    assert events[..i + 1][..i] == events[..i];
  }

  /** Every comment of a prefix has its identifier among the prefix's identifiers. */
  lemma {:induction false} CommentIdsPrefix(events: seq<Event>, i: nat)
    requires i <= |events|
    ensures forall j | 0 <= j < i :: events[j].comment.id in CommentIds(events[..i])
  {
    if i > 0 {
      CommentIdsPrefix(events, i - 1);
      CommentIdsSnoc(events, i - 1);
    }
  }
}
