/**
 * The request handlers that change the auction: creating a listing, bidding,
 * toggling a watchlist, closing an auction and posting a comment.
 *
 * The record store is the class AuctionStore, whose fields are the tables
 * (listings and bid histories by listing id, watchlists by owner, comments in
 * posting order). Each handler is a method on it; what a handler does to a
 * single listing is given by a function on values (NewListing, Accepts,
 * Closed, Toggled), and HistoryValid is the invariant every listing and its
 * bids keep.
 */
module Views {
  import opened Models
  import opened Util

  /**
   * A submitted decimal field: text that does not parse as a decimal with at
   * most two places, or a number of cents.
   */
  datatype DecimalInput = Malformed | Decimal(cents: int)

  /** The field's own check: a decimal within the amount's digits. */
  predicate AmountFieldValid(x: DecimalInput) {
    x.Decimal? && IsAmount(x.cents)
  }

  /** The fields of the new-listing form. */
  datatype ListingForm = ListingForm(
    title: string,
    description: string,
    initBid: DecimalInput,
    url: string,
    category: Option<CategoryId>)

  /**
   * Title and description are required, the title is at most 128 characters,
   * the image URL (which may be blank) at most 200.
   */
  predicate ListingFormValid(f: ListingForm) {
    && 0 < |f.title| <= TitleMaxLength
    && |f.description| > 0
    && |f.url| <= UrlMaxLength
    && AmountFieldValid(f.initBid)
  }

  /** What a handler reports back to the page it renders or redirects to. */
  datatype Outcome =
    | Created(id: ListingId)          // the new listing was saved
    | Done                            // the change was made
    | LoginRequired                   // the handler is closed to anonymous requesters
    | NotFound                        // no listing has that id
    | InvalidForm                     // a submitted field did not validate
    | BidTooLow(minRequiredBid: Cents) // the bid is below the minimum shown with it
    | NotAUser                        // an anonymous requester cannot be a listing's creator

  // ----- The invariant of one listing and its bids -----

  /** Bid i+1 meets the rule that was in force when it was placed. */
  predicate StepOk(bids: seq<Bid>, i: nat)
    requires i + 1 < |bids|
  {
    if i == 0 then bids[0].amount <= bids[1].amount else bids[i].amount < bids[i + 1].amount
  }

  /**
   * What every listing `l` with id `id` and bid history `bids` satisfies: the
   * history starts with the creator's bid for the initial price, the current
   * bid is the last bid, each accepted bid met the minimum of its time, the
   * listing is closed exactly when it has a winner, and a winner is someone
   * who bid.
   */
  predicate HistoryValid(id: ListingId, l: Listing, bids: seq<Bid>) {
    && |bids| >= 1
    && bids[0] == Bid(id, l.initBid, l.creator)
    && l.currentBid == bids[|bids| - 1].amount
    && (forall b :: b in bids ==> b.listing == id && BidValid(b))
    && (forall i :: 0 <= i < |bids| - 1 ==> StepOk(bids, i))
    && (l.active <==> l.winner.None?)
    && (l.winner.Some? ==> exists b :: b in bids && b.bidder == l.winner.value)
  }

  // ----- What each handler does to one listing -----

  /** The listing saved from a valid form: its current bid is its initial bid. */
  function NewListing(f: ListingForm, creator: UserId): (l: Listing)
    requires f.initBid.Decimal?
  {
    Listing(
      title := f.title,
      description := f.description,
      initBid := f.initBid.cents,
      currentBid := f.initBid.cents,
      url := f.url,
      active := true,
      creator := creator,
      winner := None,
      category := f.category)
  }

  /** The bid rule: an amount is accepted when it is at least the minimum. */
  predicate Accepts(l: Listing, bids: seq<Bid>, amount: Cents) {
    MinRequiredBid(l, bids) <= amount
  }

  /** Closing: inactive, and the bidder of the last bid is the winner. */
  function Closed(l: Listing, bids: seq<Bid>): (c: Listing)
    requires |bids| > 0
  {
    l.(active := false, winner := Some(bids[|bids| - 1].bidder))
  }

  /**
   * The watchlist toggle of user `u` and listing `id`: the user's watchlist is
   * created if missing, and the listing's membership flips.
   */
  function Toggled(ws: map<UserId, Watchlist>, u: UserId, id: ListingId): (r: map<UserId, Watchlist>)
    ensures r.Keys == ws.Keys + {u}
    ensures forall v :: v in ws && v != u ==> r[v] == ws[v]
    ensures r[u].user == (if u in ws then ws[u].user else u)
    ensures Watches(r, u, id) <==> !Watches(ws, u, id)
    ensures forall x :: x != id ==> (Watches(r, u, x) <==> Watches(ws, u, x))
  {
    if u in ws then
      if id in ws[u].listings then ws[u := ws[u].(listings := ws[u].listings - {id})]
      else ws[u := ws[u].(listings := ws[u].listings + {id})]
    else
      ws[u := Watchlist(u, {id})]
  }

  // ----- The handlers keep the invariant -----

  lemma NewListingHistory(id: ListingId, f: ListingForm, creator: UserId)
    requires ListingFormValid(f)
    ensures ListingValid(NewListing(f, creator))
    ensures HistoryValid(id, NewListing(f, creator), [Bid(id, f.initBid.cents, creator)])
  {
  }

  lemma BidKeepsHistory(id: ListingId, l: Listing, bids: seq<Bid>, amount: Cents, bidder: UserId)
    requires HistoryValid(id, l, bids)
    requires IsAmount(amount) && Accepts(l, bids, amount)
    ensures HistoryValid(id, l.(currentBid := amount), bids + [Bid(id, amount, bidder)])
  {
    var bids' := bids + [Bid(id, amount, bidder)];
    forall i | 0 <= i < |bids'| - 1 ensures StepOk(bids', i) {
      if i < |bids| - 1 {
        assert StepOk(bids, i);
      }
    }
    if l.winner.Some? {
      var b :| b in bids && b.bidder == l.winner.value;
      assert b in bids';
    }
  }

  lemma CloseKeepsHistory(id: ListingId, l: Listing, bids: seq<Bid>)
    requires HistoryValid(id, l, bids)
    ensures HistoryValid(id, Closed(l, bids), bids)
  {
    assert bids[|bids| - 1] in bids;
  }

  // ----- The record store -----

  /**
   * The store's invariant: listing ids are 0 up to `nextId`, every listing has
   * a bid history and keeps the invariant with it, a watchlist belongs to the
   * user it is filed under and names listings that exist, and so does every
   * comment.
   */
  ghost predicate StoreValid(listings: map<ListingId, Listing>, bids: map<ListingId, seq<Bid>>,
                             watchlists: map<UserId, Watchlist>, comments: seq<Comment>, nextId: ListingId)
  {
    && listings.Keys == bids.Keys
    && (forall id: ListingId :: id in listings <==> id < nextId)
    && (forall id :: id in listings ==> ListingValid(listings[id]) && HistoryValid(id, listings[id], bids[id]))
    && (forall u :: u in watchlists ==> watchlists[u].user == u && watchlists[u].listings <= listings.Keys)
    && (forall c :: c in comments ==> c.listing in listings)
  }

  /** Replacing one existing listing and its history by valid ones keeps the store valid. */
  lemma ReplaceKeepsStore(listings: map<ListingId, Listing>, bids: map<ListingId, seq<Bid>>,
                          watchlists: map<UserId, Watchlist>, comments: seq<Comment>, nextId: ListingId,
                          id: ListingId, l: Listing, history: seq<Bid>)
    requires StoreValid(listings, bids, watchlists, comments, nextId)
    requires id in listings
    requires ListingValid(l) && HistoryValid(id, l, history)
    ensures StoreValid(listings[id := l], bids[id := history], watchlists, comments, nextId)
  {
  }

  /** The ids 0, 1, ..., n - 1 in the order their listings were created. */
  function CreationOrder(n: nat): (r: seq<ListingId>)
    ensures |r| == n
    ensures forall i :: 0 <= i < n ==> r[i] == i
  {
    if n == 0 then [] else CreationOrder(n - 1) + [n - 1]
  }

  class AuctionStore {
    /** Every listing, by id. */
    var listings: map<ListingId, Listing>
    /** The bid history of every listing, by listing id, oldest first. */
    var bids: map<ListingId, seq<Bid>>
    /** The watchlist of each user who has one, by user. */
    var watchlists: map<UserId, Watchlist>
    /** Every comment, in posting order. */
    var comments: seq<Comment>
    /** The id the next listing gets. */
    var nextId: ListingId

    ghost predicate Valid()
      reads this
    {
      StoreValid(listings, bids, watchlists, comments, nextId)
    }

    constructor ()
      ensures Valid()
      ensures listings == map[] && bids == map[] && watchlists == map[] && comments == [] && nextId == 0
    {
      listings, bids, watchlists, comments, nextId := map[], map[], map[], [], 0;
    }

    /** The listing page's facts about listing `id` for `req`. */
    function Data(req: Requester, id: ListingId): (d: ListingData)
      reads this
      requires id in listings && id in bids
    {
      GetListingData(req, id, listings[id], bids[id], watchlists, comments)
    }

    /** All listing ids, the most recently created first. */
    function ListingsNewestFirst(): (r: seq<ListingId>)
      reads this
      requires Valid()
      ensures forall id :: id in r <==> id in listings
      ensures forall i, j :: 0 <= i < j < |r| ==> r[i] > r[j]
    {
      var created := CreationOrder(nextId);
      forall id: ListingId ensures id in created <==> id < nextId {
        if id < nextId {
          assert created[id] == id;
        }
      }
      NewestFirstSameRecords(created);
      NewestFirst(created)
    }

    /** Saving a new listing together with its creator's first bid. */
    method CreateListing(req: Requester, form: ListingForm) returns (r: Outcome)
      requires Valid()
      modifies this
      ensures Valid()
      ensures !ListingFormValid(form) ==> r == InvalidForm && unchanged(this)
      ensures ListingFormValid(form) && req.Anonymous? ==> r == NotAUser && unchanged(this)
      ensures ListingFormValid(form) && req.Authenticated? ==>
        var id := old(nextId);
        && r == Created(id)
        && id !in old(listings)
        && listings == old(listings)[id := NewListing(form, req.user)]
        && bids == old(bids)[id := [Bid(id, form.initBid.cents, req.user)]]
        && watchlists == old(watchlists) && comments == old(comments) && nextId == id + 1
    {
      if !ListingFormValid(form) {
        return InvalidForm;
      }
      if req.Anonymous? {
        return NotAUser;
      }
      var id := nextId;
      NewListingHistory(id, form, req.user);
      listings := listings[id := NewListing(form, req.user)];
      bids := bids[id := [Bid(id, form.initBid.cents, req.user)]];
      nextId := nextId + 1;
      r := Created(id);
    }

    /** A bid of `amount` by `req` on listing `id`. Whether it is active is not looked at. */
    method UpdatePrice(req: Requester, id: ListingId, amount: DecimalInput) returns (r: Outcome)
      requires Valid()
      modifies this
      ensures Valid()
      ensures req.Anonymous? ==> r == LoginRequired && unchanged(this)
      ensures req.Authenticated? && id !in old(listings) ==> r == NotFound && unchanged(this)
      ensures req.Authenticated? && id in old(listings) && !AmountFieldValid(amount) ==>
        r == InvalidForm && unchanged(this)
      ensures req.Authenticated? && id in old(listings) && AmountFieldValid(amount) ==>
        var l, history := old(listings)[id], old(bids)[id];
        if Accepts(l, history, amount.cents) then
          && r == Done
          && listings == old(listings)[id := l.(currentBid := amount.cents)]
          && bids == old(bids)[id := history + [Bid(id, amount.cents, req.user)]]
          && watchlists == old(watchlists) && comments == old(comments) && nextId == old(nextId)
        else
          r == BidTooLow(MinRequiredBid(l, history)) && unchanged(this)
    {
      if req.Anonymous? {
        return LoginRequired;
      }
      if id !in listings {
        return NotFound;
      }
      var listing := listings[id];
      // Of the page facts the handler computes here, only the minimum is used.
      var minimum := MinRequiredBid(listing, bids[id]);
      if !AmountFieldValid(amount) {
        return InvalidForm;
      }
      var newBid := amount.cents;
      if minimum <= newBid {
        var history := bids[id] + [Bid(id, newBid, req.user)];
        var updated := listing.(currentBid := newBid);
        BidKeepsHistory(id, listing, bids[id], newBid, req.user);
        ReplaceKeepsStore(listings, bids, watchlists, comments, nextId, id, updated, history);
        bids := bids[id := history];
        listings := listings[id := updated];
        r := Done;
      } else {
        r := BidTooLow(minimum);
      }
    }

    /** Adding listing `id` to the requester's watchlist, or removing it. */
    method EditWatchlist(req: Requester, id: ListingId) returns (r: Outcome)
      requires Valid()
      modifies this
      ensures Valid()
      ensures req.Anonymous? ==> r == LoginRequired && unchanged(this)
      ensures req.Authenticated? && id !in old(listings) ==> r == NotFound && unchanged(this)
      ensures req.Authenticated? && id in old(listings) ==>
        && r == Done
        && watchlists == Toggled(old(watchlists), req.user, id)
        && listings == old(listings) && bids == old(bids)
        && comments == old(comments) && nextId == old(nextId)
    {
      if req.Anonymous? {
        return LoginRequired;
      }
      if id !in listings {
        return NotFound;
      }
      watchlists := Toggled(watchlists, req.user, id);
      r := Done;
    }

    /** Closing listing `id`, by anyone. */
    method CloseListing(id: ListingId) returns (r: Outcome)
      requires Valid()
      modifies this
      ensures Valid()
      ensures id !in old(listings) ==> r == NotFound && unchanged(this)
      ensures id in old(listings) ==>
        && r == Done
        && listings == old(listings)[id := Closed(old(listings)[id], old(bids)[id])]
        && bids == old(bids) && watchlists == old(watchlists)
        && comments == old(comments) && nextId == old(nextId)
    {
      if id !in listings {
        return NotFound;
      }
      CloseKeepsHistory(id, listings[id], bids[id]);
      ReplaceKeepsStore(listings, bids, watchlists, comments, nextId, id, Closed(listings[id], bids[id]), bids[id]);
      listings := listings[id := Closed(listings[id], bids[id])];
      r := Done;
    }

    /** A comment by `req` on listing `id`; the content is required. */
    method PostComment(req: Requester, id: ListingId, content: string) returns (r: Outcome)
      requires Valid()
      modifies this
      ensures Valid()
      ensures req.Anonymous? ==> r == LoginRequired && unchanged(this)
      ensures req.Authenticated? && id !in old(listings) ==> r == NotFound && unchanged(this)
      ensures req.Authenticated? && id in old(listings) && content == "" ==> r == InvalidForm && unchanged(this)
      ensures req.Authenticated? && id in old(listings) && content != "" ==>
        && r == Done
        && comments == old(comments) + [Comment(req.user, id, content)]
        && listings == old(listings) && bids == old(bids)
        && watchlists == old(watchlists) && nextId == old(nextId)
    {
      if req.Anonymous? {
        return LoginRequired;
      }
      if id !in listings {
        return NotFound;
      }
      if content == "" {
        return InvalidForm;
      }
      comments := comments + [Comment(req.user, id, content)];
      r := Done;
    }
  }
}
