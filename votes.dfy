/** `static/js/votes.js`: the vote buttons of one perk row. A click updates
    the button state and the rating shown at once, posts the vote, and puts
    both back when the request fails. */
module ClientVotes {
  import opened Common
  import opened Model
  import opened PerkService

  datatype VoteKind = Upvote | Downvote

  /** Lines 29-30: pressing the button of the vote already cast clears it;
      any other press casts that vote. */
  function NextVote(current: int, kind: VoteKind): (v: int)
    ensures -1 <= v <= 1
    ensures kind.Upvote? ==> (v == 0 <==> current == 1) && (v != 0 ==> v == 1)
    ensures kind.Downvote? ==> (v == 0 <==> current == -1) && (v != 0 ==> v == -1)
  {
    match kind
    case Upvote => if current == 1 then 0 else 1
    case Downvote => if current == -1 then 0 else -1
  }

  /** Lines 32-35: the rating to show for a vote, from the rating without the
      user's vote. */
  function RatingFor(baseRating: int, vote: int): (r: int)
    ensures -1 <= vote <= 1 ==> r == baseRating + vote
    ensures baseRating - 1 <= r <= baseRating + 1
  {
    if vote == 1 then baseRating + 1
    else if vote == -1 then baseRating - 1
    else baseRating
  }

  /** Two presses of the same button from no vote end with no vote; pressing
      up and then down ends with a down vote, and down then up with an up
      vote. */
  lemma PressSequences(kind: VoteKind)
    ensures NextVote(NextVote(0, kind), kind) == 0
    ensures NextVote(NextVote(0, Upvote), Downvote) == -1
    ensures NextVote(NextVote(0, Downvote), Upvote) == 1
  {
  }

  /** The state the closure in `initVotes` keeps for one row. */
  class VoteControl {
    const loggedIn: bool
    /** The rating without the user's own vote. */
    const baseRating: int
    var currentVote: int
    /** The number in the rating cell. */
    var displayed: int

    /** The cell shows the base rating plus the user's vote, a vote being
        -1, 0 or 1. */
    ghost predicate Valid()
      reads this
    {
      -1 <= currentVote <= 1 && displayed == baseRating + currentVote
    }

    /** Lines 3-16: the vote state from the page (`parseInt(...) || 0`, so an
        unreadable one counts as no vote) and the rating shown; the base
        rating is the shown rating minus the vote. */
    constructor (loggedIn: bool, voteState: Option<int>, displayed: int)
      ensures this.loggedIn == loggedIn && this.displayed == displayed
      ensures currentVote == voteState.GetOr(0)
      ensures baseRating == displayed - currentVote
      ensures -1 <= voteState.GetOr(0) <= 1 ==> Valid()
    {
      this.loggedIn := loggedIn;
      this.displayed := displayed;
      currentVote := voteState.GetOr(0);
      baseRating := displayed - voteState.GetOr(0);
    }

    /** `handleVote(type)`: a signed-out user only gets an alert. Otherwise
        the vote moves as `NextVote` says and the cell shows the matching
        rating; `requestOk` is whether the POST succeeded, and when it did
        not, the vote and the cell go back to what they were. */
    method HandleVote(kind: VoteKind, requestOk: bool)
      modifies this`currentVote, this`displayed
      ensures !loggedIn ==> currentVote == old(currentVote) && displayed == old(displayed)
      ensures loggedIn && requestOk ==>
        currentVote == NextVote(old(currentVote), kind) && displayed == RatingFor(baseRating, currentVote)
      ensures loggedIn && !requestOk ==> currentVote == old(currentVote) && displayed == old(displayed)
      ensures loggedIn && requestOk ==> Valid()
      ensures old(Valid()) ==> Valid()
    {
      if !loggedIn {
        return;
      }
      var oldVote := currentVote;
      var oldRating := displayed;
      currentVote := NextVote(currentVote, kind);
      displayed := RatingFor(baseRating, currentVote);
      if !requestOk {
        currentVote := oldVote;
        displayed := oldRating;
      }
    }
  }

  /** The vote a server vote toggle gives an account. */
  function ServerToggle(v: Votes, a: Account, kind: VoteKind): Votes {
    match kind
    case Upvote => ToggledUp(v, a)
    case Downvote => ToggledDown(v, a)
  }

  /** The page shows the server's rating and the user's vote on it. After a
      press that the server accepts, the vote the browser shows is the one
      the server's toggle records, and the rating it shows is the server's new
      rating. */
  lemma ClientAgreesWithServer(v: Votes, a: Account, kind: VoteKind)
    requires v.up !! v.down
    ensures NextVote(v.VoteOf(a), kind) == ServerToggle(v, a, kind).VoteOf(a)
    ensures RatingFor(v.Rating() - v.VoteOf(a), NextVote(v.VoteOf(a), kind)) == ServerToggle(v, a, kind).Rating()
  {
    ToggleVoteTransitions(v, a);
    ToggleRatingDelta(v, a);
  }
}
