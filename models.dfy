/**
 * The records of the auction site: users, listings, bids, watchlists and comments.
 *
 * Money is held as an integer number of cents, because every amount in the
 * site is a decimal field with two decimal places. Timestamps are not kept:
 * records are created one after another, so creation order is the order of
 * the sequences that hold them, and identifiers are handed out in that order.
 */
module Models {

  datatype Option<+T> = None | Some(value: T)

  type UserId = nat
  type ListingId = nat
  type CategoryId = nat

  /** An amount of money in cents. */
  type Cents = int

  /** Every amount field has at most this many digits ... */
  const MaxDigits: nat := 9
  /** ... of which this many are after the decimal point. */
  const DecimalPlaces: nat := 2

  /** The longest title a listing may have. */
  const TitleMaxLength: nat := 128

  /** The longest image URL a listing may have: the URL field's default length. */
  const UrlMaxLength: nat := 200

  function Pow10(n: nat): (r: nat)
    ensures r >= 1
  {
    if n == 0 then 1 else 10 * Pow10(n - 1)
  }

  /**
   * A decimal with MaxDigits digits in all and DecimalPlaces of them after the
   * point is, in its smallest unit (cents), a whole number with at most
   * MaxDigits digits: its absolute value is below 10^MaxDigits.
   */
  predicate IsAmount(c: Cents) {
    var bound: int := Pow10(MaxDigits);
    -bound < c < bound
  }

  /** Cents in one unit of currency. */
  const CentsPerUnit: nat := Pow10(DecimalPlaces)

  /** In numbers: an amount lies strictly between -10^9 and 10^9 cents. */
  lemma AmountBound(c: Cents)
    ensures CentsPerUnit == 100
    ensures IsAmount(c) <==> -1_000_000_000 < c < 1_000_000_000
  {
  }

  /** The registered user who made a request, or nobody. */
  datatype Requester = Anonymous | Authenticated(user: UserId)

  /**
   * A listing. `initBid` and `currentBid` are amounts, `active` is true until
   * the auction is closed, `winner` is set when it is closed and `category` is
   * optional.
   */
  datatype Listing = Listing(
    title: string,
    description: string,
    initBid: Cents,
    currentBid: Cents,
    url: string,
    active: bool,
    creator: UserId,
    winner: Option<UserId>,
    category: Option<CategoryId>)

  /** One bid: the listing it is for, the amount offered and who offered it. */
  datatype Bid = Bid(listing: ListingId, amount: Cents, bidder: UserId)

  /** The listings one user watches: a set, with no order. */
  datatype Watchlist = Watchlist(user: UserId, listings: set<ListingId>)

  /** A comment by a user on a listing. */
  datatype Comment = Comment(user: UserId, listing: ListingId, content: string)

  /** What the field declarations demand of every stored listing. */
  predicate ListingValid(l: Listing) {
    |l.title| <= TitleMaxLength && |l.url| <= UrlMaxLength && IsAmount(l.initBid) && IsAmount(l.currentBid)
  }

  /** What the field declaration demands of every stored bid. */
  predicate BidValid(b: Bid) {
    IsAmount(b.amount)
  }

  /**
   * Records listed "most recent first": listings by creation time and
   * comments by posting time, where `s` holds them in creation order.
   */
  function NewestFirst<T>(s: seq<T>): (r: seq<T>)
    ensures |r| == |s|
    ensures forall i :: 0 <= i < |s| ==> r[i] == s[|s| - 1 - i]
  {
    if s == [] then [] else [s[|s| - 1]] + NewestFirst(s[..|s| - 1])
  }

  /** Listing the newest first twice gives back creation order. */
  lemma NewestFirstTwice<T>(s: seq<T>)
    ensures NewestFirst(NewestFirst(s)) == s
  {
  }

  /** A record created last is listed first. */
  lemma NewestFirstAppend<T>(s: seq<T>, x: T)
    ensures NewestFirst(s + [x]) == [x] + NewestFirst(s)
  {
    assert (s + [x])[..|s|] == s;
  }

  /** Reordering newest first keeps exactly the same records. */
  lemma NewestFirstSameRecords<T>(s: seq<T>)
    ensures forall x :: x in NewestFirst(s) <==> x in s
  {
  }
}
