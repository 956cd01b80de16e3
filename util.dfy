/**
 * The read-only query behind the listing page: what the requester may see of
 * one listing and the smallest bid the listing accepts next.
 */
module Util {
  import opened Models

  /**
   * The smallest acceptable next bid. While the only bid is the one written
   * when the listing was created, it is the initial price; once anyone else
   * has bid, it is one cent above the current bid. The source adds the float
   * 0.01 and rounds to two places, which is exactly one cent.
   */
  function MinRequiredBid(l: Listing, bids: seq<Bid>): (m: Cents) {
    if |bids| > 1 then l.currentBid + 1 else l.initBid
  }

  /** The comments on listing `id`, in the order they were posted. */
  function CommentsOn(all: seq<Comment>, id: ListingId): (r: seq<Comment>)
    ensures |r| <= |all|
    ensures forall c :: c in r <==> c in all && c.listing == id
  {
    if all == [] then []
    else (if all[0].listing == id then [all[0]] else []) + CommentsOn(all[1..], id)
  }

  /**
   * Posting a comment extends the listing's comments by exactly that comment,
   * at the end, and leaves every other listing's comments as they were: the
   * query keeps posting order and duplicates.
   */
  lemma {:induction false} CommentsOnAppend(all: seq<Comment>, c: Comment, id: ListingId)
    ensures CommentsOn(all + [c], id) == CommentsOn(all, id) + (if c.listing == id then [c] else [])
  {
    if all != [] {
      assert (all + [c])[1..] == all[1..] + [c];
      CommentsOnAppend(all[1..], c, id);
    }
  }

  /**
   * The comments shown on the page: nothing at all when the listing has no
   * comment, otherwise its comments with the newest first.
   */
  function ListingComments(all: seq<Comment>, id: ListingId): (r: Option<seq<Comment>>)
    ensures r.None? <==> forall c :: c in all ==> c.listing != id
    ensures r.Some? ==> forall c :: c in r.value <==> c in all && c.listing == id
    ensures r.Some? ==> NewestFirst(r.value) == CommentsOn(all, id)
  {
    var mine := CommentsOn(all, id);
    if mine == [] then None
    else
      assert mine[0] in all && mine[0].listing == id;
      NewestFirstSameRecords(mine);
      NewestFirstTwice(mine);
      Some(NewestFirst(mine))
  }

  /** Whether user `u` has a watchlist and listing `id` is on it. */
  predicate Watches(ws: map<UserId, Watchlist>, u: UserId, id: ListingId) {
    u in ws && id in ws[u].listings
  }

  /** The facts the listing page is rendered from. */
  datatype ListingData = ListingData(
    inWatchlist: bool,
    isCreator: bool,
    isWinner: bool,
    comments: Option<seq<Comment>>,
    minRequiredBid: Cents)

  /**
   * The facts about listing `id` (record `l`, bid history `bids`) for
   * requester `req`, given every watchlist (by owner) and every comment.
   * The three flags stay false for an anonymous requester. Nothing changes.
   */
  function GetListingData(req: Requester, id: ListingId, l: Listing, bids: seq<Bid>,
                          watchlists: map<UserId, Watchlist>, comments: seq<Comment>): (d: ListingData)
    ensures req.Anonymous? ==> !d.inWatchlist && !d.isCreator && !d.isWinner
    ensures d.isWinner ==> l.winner.Some?
    ensures d.comments == ListingComments(comments, id)
    ensures d.minRequiredBid == MinRequiredBid(l, bids)
  {
    var signedIn := req.Authenticated?;
    ListingData(
      inWatchlist := signedIn && Watches(watchlists, req.user, id),
      isCreator := signedIn && req.user == l.creator,
      isWinner := signedIn && l.winner == Some(req.user),
      comments := ListingComments(comments, id),
      minRequiredBid := MinRequiredBid(l, bids))
  }
}
