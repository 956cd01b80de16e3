# Auction site: bidding, closing and watchlists

A Dafny model of the business logic of a small auction web site. Users list
items, bid on them, close auctions, watch listings and comment. The code
that holds invariants is small:

- creating a listing writes the creator's first bid for the initial price;
- the listing page shows a minimum bid;
- a bid is accepted when it meets that minimum;
- closing makes the last bidder the winner;
- the watchlist button toggles membership.

The model has four modules, one per file:

- `models.dfy` (module `Models`): the records `Listing`, `Bid`, `Watchlist` and
  `Comment`, and the requester, who is anonymous or a user. Money is integer
  cents. `IsAmount` is the 9-digit, 2-place limit of every amount field.
  `NewestFirst` is the "most recent first" ordering of listings and comments.
- `util.dfy` (module `Util`): the listing page query. `MinRequiredBid`, the
  comments query and `GetListingData` are pure functions.
- `views.dfy` (module `Views`): the invariant `HistoryValid` of a listing and
  its bid history, and what each handler does to one listing (`NewListing`,
  `Accepts`, `Closed`, `Toggled`). The class `AuctionStore` holds the tables as
  `map` and `seq` fields. Its methods `CreateListing`, `UpdatePrice`,
  `EditWatchlist`, `CloseListing` and `PostComment` update them in place and
  keep `Valid()`.
- `properties.dfy` (module `Properties`): lemmas about those functions, and three
  client methods that run the handlers in sequence.

Design choices:

- Listing ids are handed out in creation order, and timestamps are not kept.
  So "newest first" is the reverse of creation order.
- A submitted decimal is `Malformed`, or a number of cents. The form accepts it
  only when its digits fit the field.
- Each handler returns an `Outcome`, which is one of: created, done, login
  required, not found, invalid form, bid too low (with the minimum), or not a
  user.

The model follows the code at these points, where one might expect otherwise:

- When a listing has no comments, the page gets no comment collection at all
  (`None`), not an empty one (auctions/util.py:19, 36-38).
- Bidding does not check `active`. A closed listing still takes bids and keeps
  its winner (`Properties.BidAfterClose`).
- Closing checks neither login nor creator. It is modelled with no requester.
- `create_listing` is not login-protected. For an anonymous requester with a
  valid form, the source fails while building the listing and saves nothing.
  The model returns `NotAUser` and leaves the store unchanged.

## Model

| member | source | states |
|---|---|---|
| Models.NewestFirst | auctions/models.py:55-58 | records in creation order come out most recent first: position i holds the record created i-th from last |
| Models.AmountBound | auctions/models.py:36-38 | an amount with 9 digits and 2 decimal places lies strictly between -10^9 and 10^9 cents, and a unit is 100 cents |
| Util.CommentsOn | auctions/util.py:36-38 | the comments on a listing are exactly the stored comments whose listing is that one |
| Util.CommentsOnAppend | auctions/models.py:84-96 | the comments query keeps posting order and duplicates: a newly posted comment is added at the end of its listing's comments, and no other listing's comments change |
| Util.ListingComments | auctions/util.py:36-38 | the page gets `None` iff no comment is about the listing; otherwise exactly that listing's comments, newest first |
| Util.GetListingData | auctions/util.py:5-44 | read-only: an anonymous requester gets all three flags false; the winner flag needs a winner; the comments and the minimum are those of the listing |
| Views.Toggled | auctions/views.py:259-271 | the toggle creates the user's watchlist if missing and flips exactly this listing's membership; other users' watchlists and other listings are untouched |
| Views.NewListingHistory | auctions/views.py:146-152 | a listing created from a valid form, with its creator's bid for the initial price, satisfies the history invariant |
| Views.BidKeepsHistory | auctions/views.py:211-217 | appending an accepted bid and making it the current bid keeps the history invariant |
| Views.CloseKeepsHistory | auctions/views.py:298-302 | closing keeps the history invariant: closed with a winner who bid |
| Views.AuctionStore.ListingsNewestFirst | auctions/models.py:55-58 | every listing id appears once, in strictly decreasing creation order |
| Views.AuctionStore.CreateListing | auctions/views.py:137-152 | an invalid form or an anonymous requester changes nothing; otherwise the listing is saved under a fresh id with exactly one bid, the creator's for the initial price |
| Views.AuctionStore.UpdatePrice | auctions/views.py:188-243 | login required; a missing listing or an invalid amount changes nothing; a bid of at least the minimum appends exactly that bid and sets the current bid, nothing else; a lower one changes nothing and reports the minimum |
| Views.AuctionStore.EditWatchlist | auctions/views.py:249-271 | login required; a missing listing changes nothing; otherwise the watchlists become the toggled ones and nothing else changes |
| Views.AuctionStore.CloseListing | auctions/views.py:291-303 | with no login or creator check, the listing becomes closed with the last bidder as winner, and nothing else changes |
| Views.AuctionStore.PostComment | auctions/views.py:314-326 | login required; a missing listing or empty content changes nothing; otherwise exactly one comment is appended |
| Properties.NewListingStart | auctions/views.py:146-152 | `Views.NewListing`, the saved listing: a new listing has current bid equal to the initial bid, is active, has no winner, and its minimum is the initial bid |
| Properties.NewListingFlags | auctions/util.py:29-33 | on a new listing only the creator sees the creator flag, and nobody sees the winner flag |
| Properties.HistoryOrdered | auctions/views.py:211-217 | bid amounts never decrease, and strictly increase from the first real bid on |
| Properties.CurrentIsHighest | auctions/views.py:211-217 | the current bid is at least the initial bid and at least every bid in the history |
| Properties.MinimumRule | auctions/util.py:20-44 | for `Util.MinRequiredBid`: with only the creator's bid the minimum is the initial bid; after that it is the last bid plus one cent; never below the current bid |
| Properties.AcceptanceRule | auctions/views.py:210-211 | for the bid rule `Views.Accepts`: the minimum itself is accepted and one cent less is refused; the first real bid need only meet the initial price, and later ones must exceed every earlier bid |
| Properties.AcceptedBidIsHighest | auctions/views.py:211-217 | an accepted bid is at least every earlier bid, and after it the history is one longer, ends with the current bid and keeps the invariant |
| Properties.MinimumExample | auctions/util.py:41-42 | with an initial price of 100.00 the minimum is 100.00 and 99.99 is refused; after an accepted 100.00 the minimum is 100.01 and 100.00 is refused |
| Properties.BidAfterClose | auctions/views.py:206-217 | a closed listing still accepts a bid that meets the minimum; it stays closed and keeps its winner |
| Properties.CloseSetsWinner | auctions/views.py:298-302 | `Views.Closed`, closing: it clears `active`, makes the last bidder the winner and changes no other field |
| Properties.CloseWithoutBidsCreatorWins | auctions/views.py:151 | when only the creator's bid exists, closing makes the creator the winner |
| Properties.WinnerMadeHighestBid | auctions/views.py:299-302 | the winner made a bid equal to the current bid, and no bid is higher |
| Properties.CloseIdempotent | auctions/views.py:298-302 | closing twice gives the same listing as closing once |
| Properties.WinnerFlag | auctions/util.py:32-33 | while a listing is open nobody is its winner; after closing, exactly the last bidder is |
| Properties.SignedInFlags | auctions/util.py:23-33 | for a signed-in user the flags hold iff the listing is on their watchlist (`Util.Watches`), they created it, or they won it |
| Properties.PostedCommentFirst | auctions/models.py:93-96 | after a comment is posted, its listing's page shows it first, followed by exactly the comments shown there before |
| Properties.PostedCommentElsewhere | auctions/util.py:36-38 | posting a comment leaves every other listing's page comments unchanged |
| Properties.PostedCommentShownFirst | auctions/views.py:322-326 | the comment `PostComment` appends is the first comment `GetListingData` returns for its listing |
| Properties.ToggleTwiceMembership | auctions/views.py:259-271 | two toggles restore whether the user watches each listing |
| Properties.ToggleTwiceRestores | auctions/views.py:259-265 | for a user who has a watchlist, two toggles restore every watchlist exactly |
| Properties.ToggleTwiceFromNone | auctions/views.py:266-271 | for a user with no watchlist, two toggles leave an empty watchlist behind |
| Properties.ToggleFlipsFlag | auctions/util.py:26-27 | each toggle flips that user's watchlist flag on the page and leaves every other user's page facts unchanged |

## Left out

- Login, logout and registration (auctions/views.py:66-125) are session and password handling. The model keeps only who the requester is.
- HTML rendering, redirects and the form classes are left out, and so are the GET branches that only render or redirect.
- The index, category, listing and watchlist display views are left out. They only query and render.
- Routing, admin registration and schema migrations are left out.
- The database layer is left out: cascade deletes, the `Category` and `User` tables, and lookups by primary key. Lookups become map membership, and a missing id becomes `NotFound`.
- Form checks that are framework behaviour are left out: URL syntax (its 200-character limit is modelled), whether the chosen category exists, and stripping whitespace from text fields. A text field counts as empty only when it is the empty string.
- `created_on` and `date_posted` are not kept. Creation order is the order of ids and of the comment sequence.
- The race between two concurrent bids on one listing is left out. The model is sequential.
- The float `Decimal(0.01)` added before rounding is not modelled. Rounded to two places it is exactly one cent, which is what the model adds.
- Each user has at most one watchlist, since the watchlists are a map by user. The source finds that watchlist with a single-row lookup.
