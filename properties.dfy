/**
 * What the bidding rule, closing and the watchlist toggle guarantee, stated
 * over the functions the handlers are specified by.
 */
module Properties {
  import opened Models
  import opened Util
  import opened Views

  // ----- A new listing -----

  /** A new listing starts at its initial price with one bid, the creator's, and is open. */
  lemma NewListingStart(id: ListingId, f: ListingForm, creator: UserId)
    requires ListingFormValid(f)
    ensures var l := NewListing(f, creator);
      && l.currentBid == l.initBid == f.initBid.cents
      && l.active && l.winner == None && l.creator == creator
      && MinRequiredBid(l, [Bid(id, l.initBid, creator)]) == l.initBid
  {
  }

  /** The creator sees the listing as theirs; nobody sees themselves as its winner. */
  lemma NewListingFlags(id: ListingId, f: ListingForm, creator: UserId, req: Requester,
                        ws: map<UserId, Watchlist>, comments: seq<Comment>)
    requires ListingFormValid(f)
    ensures var d := GetListingData(req, id, NewListing(f, creator), [Bid(id, f.initBid.cents, creator)], ws, comments);
      && (d.isCreator <==> req == Authenticated(creator))
      && !d.isWinner
  {
  }

  // ----- The order of a bid history -----

  /** Following the steps from bid i to bid j: the amounts never fall, and rise after bid 0. */
  lemma {:induction false} StepsOrder(bids: seq<Bid>, i: nat, j: nat)
    requires forall k :: 0 <= k < |bids| - 1 ==> StepOk(bids, k)
    requires i <= j < |bids|
    ensures bids[i].amount <= bids[j].amount
    ensures 1 <= i < j ==> bids[i].amount < bids[j].amount
    decreases j - i
  {
    if i < j {
      StepsOrder(bids, i + 1, j);
      assert StepOk(bids, i);
    }
  }

  /** Bid amounts are non-decreasing, and strictly increasing from the first real bid on. */
  lemma HistoryOrdered(id: ListingId, l: Listing, bids: seq<Bid>)
    requires HistoryValid(id, l, bids)
    ensures forall i, j :: 0 <= i <= j < |bids| ==> bids[i].amount <= bids[j].amount
    ensures forall i, j :: 1 <= i < j < |bids| ==> bids[i].amount < bids[j].amount
  {
    forall i, j | 0 <= i <= j < |bids|
      ensures bids[i].amount <= bids[j].amount
      ensures 1 <= i < j ==> bids[i].amount < bids[j].amount
    {
      StepsOrder(bids, i, j);
    }
  }

  /** The current bid is the highest bid and is at least the initial price. */
  lemma CurrentIsHighest(id: ListingId, l: Listing, bids: seq<Bid>)
    requires HistoryValid(id, l, bids)
    ensures l.initBid <= l.currentBid
    ensures forall b :: b in bids ==> b.amount <= l.currentBid
  {
    HistoryOrdered(id, l, bids);
    forall b | b in bids ensures b.amount <= l.currentBid {
      var i :| 0 <= i < |bids| && bids[i] == b;
      assert bids[i].amount <= bids[|bids| - 1].amount;
    }
  }

  // ----- The minimum bid and acceptance -----

  /**
   * Under the invariant, the minimum is the initial price while only the
   * creator's bid exists, and one cent above the highest bid afterwards; it
   * is never below the current bid.
   */
  lemma MinimumRule(id: ListingId, l: Listing, bids: seq<Bid>)
    requires HistoryValid(id, l, bids)
    ensures |bids| == 1 ==> MinRequiredBid(l, bids) == l.initBid == l.currentBid
    ensures |bids| > 1 ==> MinRequiredBid(l, bids) == bids[|bids| - 1].amount + 1
    ensures MinRequiredBid(l, bids) >= l.currentBid
  {
  }

  /**
   * The first real bid need only meet the initial price; every later one
   * must beat every bid so far. An amount equal to the minimum is accepted.
   */
  lemma AcceptanceRule(id: ListingId, l: Listing, bids: seq<Bid>, amount: Cents)
    requires HistoryValid(id, l, bids)
    ensures Accepts(l, bids, MinRequiredBid(l, bids)) && !Accepts(l, bids, MinRequiredBid(l, bids) - 1)
    ensures |bids| == 1 ==> (Accepts(l, bids, amount) <==> l.initBid <= amount)
    ensures |bids| > 1 ==> (Accepts(l, bids, amount) <==> forall b :: b in bids ==> b.amount < amount)
  {
    CurrentIsHighest(id, l, bids);
    if |bids| > 1 {
      assert bids[|bids| - 1] in bids;
    }
  }

  /** An accepted bid is at least every earlier bid, so the history stays ordered. */
  lemma AcceptedBidIsHighest(id: ListingId, l: Listing, bids: seq<Bid>, amount: Cents, bidder: UserId)
    requires HistoryValid(id, l, bids)
    requires IsAmount(amount) && Accepts(l, bids, amount)
    ensures forall b :: b in bids ==> b.amount <= amount
    ensures var l', bids' := l.(currentBid := amount), bids + [Bid(id, amount, bidder)];
      && HistoryValid(id, l', bids')
      && l'.initBid <= l'.currentBid == bids'[|bids'| - 1].amount
      && |bids'| == |bids| + 1
  {
    CurrentIsHighest(id, l, bids);
    BidKeepsHistory(id, l, bids, amount, bidder);
  }

  /** The worked example: initial price 100.00, then one accepted bid of 100.00. */
  lemma MinimumExample(id: ListingId, creator: UserId, bidder: UserId, l: Listing)
    requires l.initBid == 100 * CentsPerUnit && l.currentBid == l.initBid && l.creator == creator
    ensures MinRequiredBid(l, [Bid(id, 10000, creator)]) == 10000
    ensures Accepts(l, [Bid(id, 10000, creator)], 10000)
    ensures !Accepts(l, [Bid(id, 10000, creator)], 9999)
    ensures MinRequiredBid(l.(currentBid := 10000), [Bid(id, 10000, creator), Bid(id, 10000, bidder)]) == 10001
    ensures !Accepts(l.(currentBid := 10000), [Bid(id, 10000, creator), Bid(id, 10000, bidder)], 10000)
  {
    AmountBound(0);
  }

  /** Bidding does not look at whether the auction is open: a closed listing takes bids and keeps its winner. */
  lemma BidAfterClose(id: ListingId, l: Listing, bids: seq<Bid>, amount: Cents, bidder: UserId)
    requires HistoryValid(id, l, bids) && !l.active
    requires Accepts(l, bids, amount) && IsAmount(amount)
    ensures var l' := l.(currentBid := amount);
      !l'.active && l'.winner == l.winner && HistoryValid(id, l', bids + [Bid(id, amount, bidder)])
  {
    BidKeepsHistory(id, l, bids, amount, bidder);
  }

  // ----- Closing -----

  /** Closing makes the last bidder the winner, and nothing but `active` and `winner` changes. */
  lemma CloseSetsWinner(id: ListingId, l: Listing, bids: seq<Bid>)
    requires HistoryValid(id, l, bids)
    ensures var c := Closed(l, bids);
      && !c.active && c.winner == Some(bids[|bids| - 1].bidder)
      && c.(active := l.active, winner := l.winner) == l
      && HistoryValid(id, c, bids)
  {
    CloseKeepsHistory(id, l, bids);
  }

  /** With no real bid, closing makes the creator the winner. */
  lemma CloseWithoutBidsCreatorWins(id: ListingId, l: Listing, bids: seq<Bid>)
    requires HistoryValid(id, l, bids) && |bids| == 1
    ensures Closed(l, bids).winner == Some(l.creator)
  {
  }

  /** The winner made the highest bid of the history. */
  lemma WinnerMadeHighestBid(id: ListingId, l: Listing, bids: seq<Bid>)
    requires HistoryValid(id, l, bids)
    ensures exists b :: b in bids && Closed(l, bids).winner == Some(b.bidder) &&
                        b.amount == l.currentBid && (forall b' :: b' in bids ==> b'.amount <= b.amount)
  {
    CurrentIsHighest(id, l, bids);
    assert bids[|bids| - 1] in bids;
  }

  /** Closing twice is closing once. */
  lemma CloseIdempotent(l: Listing, bids: seq<Bid>)
    requires |bids| > 0
    ensures Closed(Closed(l, bids), bids) == Closed(l, bids)
  {
  }

  /** Before closing nobody is the winner; after it exactly the last bidder is. */
  lemma WinnerFlag(id: ListingId, l: Listing, bids: seq<Bid>, u: UserId,
                   ws: map<UserId, Watchlist>, comments: seq<Comment>)
    requires HistoryValid(id, l, bids)
    ensures l.active ==> !GetListingData(Authenticated(u), id, l, bids, ws, comments).isWinner
    ensures GetListingData(Authenticated(u), id, Closed(l, bids), bids, ws, comments).isWinner
            <==> u == bids[|bids| - 1].bidder
  {
  }

  // ----- The listing page's flags -----

  /** For a signed-in user the flags say exactly: on the watchlist, the creator, the winner. */
  lemma SignedInFlags(id: ListingId, l: Listing, bids: seq<Bid>, u: UserId,
                      ws: map<UserId, Watchlist>, comments: seq<Comment>)
    ensures var d := GetListingData(Authenticated(u), id, l, bids, ws, comments);
      && (d.inWatchlist <==> u in ws && id in ws[u].listings)
      && (d.isCreator <==> u == l.creator)
      && (d.isWinner <==> l.winner == Some(u))
  {
  }

  // ----- The watchlist toggle -----

  /** Toggling twice restores whether the user watches the listing. */
  lemma ToggleTwiceMembership(ws: map<UserId, Watchlist>, u: UserId, id: ListingId, x: ListingId)
    ensures Watches(Toggled(Toggled(ws, u, id), u, id), u, x) <==> Watches(ws, u, x)
  {
  }

  /** For a user who already has a watchlist, toggling twice restores every watchlist. */
  lemma ToggleTwiceRestores(ws: map<UserId, Watchlist>, u: UserId, id: ListingId)
    requires u in ws
    ensures Toggled(Toggled(ws, u, id), u, id) == ws
  {
    var once := Toggled(ws, u, id);
    var twice := Toggled(once, u, id);
    assert twice[u].listings == ws[u].listings;
    assert twice[u] == ws[u];
  }

  /** For a user without one, two toggles leave an empty watchlist behind. */
  lemma ToggleTwiceFromNone(ws: map<UserId, Watchlist>, u: UserId, id: ListingId)
    requires u !in ws
    ensures Toggled(Toggled(ws, u, id), u, id) == ws[u := Watchlist(u, {})]
  {
    var once := Toggled(ws, u, id);
    assert once == ws[u := Watchlist(u, {id})];
    assert once[u].listings - {id} == {};
  }

  /** Each toggle flips the listing page's `inWatchlist` flag for that user and changes no one else's. */
  lemma ToggleFlipsFlag(id: ListingId, l: Listing, bids: seq<Bid>, u: UserId, v: UserId,
                        ws: map<UserId, Watchlist>, comments: seq<Comment>)
    ensures GetListingData(Authenticated(u), id, l, bids, Toggled(ws, u, id), comments).inWatchlist
            <==> !GetListingData(Authenticated(u), id, l, bids, ws, comments).inWatchlist
    ensures v != u ==>
      GetListingData(Authenticated(v), id, l, bids, Toggled(ws, u, id), comments)
      == GetListingData(Authenticated(v), id, l, bids, ws, comments)
  {
  }

  // ----- Comments -----

  /** A newly posted comment comes first on its listing's page, followed by the comments shown there before. */
  lemma PostedCommentFirst(all: seq<Comment>, c: Comment)
    ensures ListingComments(all + [c], c.listing) ==
            Some([c] + match ListingComments(all, c.listing) case None => [] case Some(v) => v)
  {
    CommentsOnAppend(all, c, c.listing);
    NewestFirstAppend(CommentsOn(all, c.listing), c);
  }

  /** Posting a comment leaves every other listing's page comments as they were. */
  lemma PostedCommentElsewhere(all: seq<Comment>, c: Comment, x: ListingId)
    requires x != c.listing
    ensures ListingComments(all + [c], x) == ListingComments(all, x)
  {
    CommentsOnAppend(all, c, x);
    assert CommentsOn(all + [c], x) == CommentsOn(all, x) + [] == CommentsOn(all, x);
  }

  /** The comment PostComment appends is the first one its listing's page shows. */
  lemma PostedCommentShownFirst(req: Requester, l: Listing, bids: seq<Bid>,
                                ws: map<UserId, Watchlist>, all: seq<Comment>, c: Comment)
    ensures var d := GetListingData(req, c.listing, l, bids, ws, all + [c]);
      d.comments.Some? && d.comments.value[0] == c
  {
    PostedCommentFirst(all, c);
  }

  // ----- The handlers together -----

  /**
   * A listing created at 100.00 refuses 99.99 and accepts 100.00; a second
   * bid of 100.00 is refused with the minimum 100.01.
   */
  method BiddingScenario(creator: UserId, bidder: UserId)
  {
    var store := new AuctionStore();
    AmountBound(10000);
    var r := store.CreateListing(Authenticated(creator), ListingForm("Lamp", "A desk lamp", Decimal(10000), "", None));
    assert r == Created(0);
    r := store.UpdatePrice(Authenticated(bidder), 0, Decimal(9999));
    assert r == BidTooLow(10000);
    r := store.UpdatePrice(Authenticated(bidder), 0, Decimal(10000));
    assert r == Done;
    r := store.UpdatePrice(Authenticated(creator), 0, Decimal(10000));
    assert r == BidTooLow(10001);
  }

  /** After one accepted bid, closing makes that bidder the winner. */
  method ClosingScenario(creator: UserId, bidder: UserId)
    requires creator != bidder
  {
    var store := new AuctionStore();
    AmountBound(10000);
    var r := store.CreateListing(Authenticated(creator), ListingForm("Lamp", "A desk lamp", Decimal(10000), "", None));
    r := store.UpdatePrice(Authenticated(bidder), 0, Decimal(10000));
    r := store.CloseListing(0);
    assert !store.listings[0].active && store.listings[0].winner == Some(bidder);
    assert store.Data(Authenticated(bidder), 0).isWinner && !store.Data(Authenticated(creator), 0).isWinner;
  }

  /** Toggling twice: watched, then not; anonymous requesters are sent to log in. */
  method WatchlistScenario(user: UserId)
  {
    var store := new AuctionStore();
    AmountBound(500);
    var r := store.CreateListing(Authenticated(user), ListingForm("Chair", "Oak", Decimal(500), "", None));
    r := store.EditWatchlist(Anonymous, 0);
    assert r == LoginRequired;
    r := store.EditWatchlist(Authenticated(user), 0);
    assert store.Data(Authenticated(user), 0).inWatchlist;
    r := store.EditWatchlist(Authenticated(user), 0);
    assert !store.Data(Authenticated(user), 0).inWatchlist;
  }
}
