/**
 * One note card: its delete-button colour, which is derived from the card
 * colour, and the two flags that drive its disappearance (`isAnimating` while
 * the delete animation runs, `isDeleted` once it has finished). A deleted
 * card renders nothing.
 */
module NotesCard {
  import opened Wrappers
  import opened Notes

  /**
   * The card colours the delete button distinguishes; `Unlisted` stands for
   * every other value the `color` prop can take, `undefined` included.
   */
  datatype Colour = Blue | Red | Green | Yellow | Unlisted

  /** The secondary shades used for the delete button. */
  datatype SecondaryColour = BlueSecondary | RedSecondary | GreenSecondary | YellowSecondary

  /** `getDeleteButtonColor`: the secondary shade of blue, red or green, yellow's for anything else. */
  function DeleteButtonColor(c: Colour): (s: SecondaryColour)
    ensures s == YellowSecondary <==> c != Blue && c != Red && c != Green
  {
    match c
    case Blue => BlueSecondary
    case Red => RedSecondary
    case Green => GreenSecondary
    case _ => YellowSecondary
  }

  /** The card colour each secondary shade belongs to. */
  function PrimaryOf(s: SecondaryColour): Colour {
    match s
    case BlueSecondary => Blue
    case RedSecondary => Red
    case GreenSecondary => Green
    case YellowSecondary => Yellow
  }

  /**
   * Every shade is used, each card colour gets its own shade, and the
   * palette's blue, red and green are told apart; every other colour shares
   * yellow's shade.
   */
  lemma DeleteButtonColorMatchesCard(c: Colour, s: SecondaryColour)
    ensures DeleteButtonColor(PrimaryOf(s)) == s
    ensures c != Unlisted ==> PrimaryOf(DeleteButtonColor(c)) == c
    ensures c == Unlisted ==> DeleteButtonColor(c) == DeleteButtonColor(Yellow)
  {
  }

  /** The card's state flags. */
  datatype CardState = CardState(isDeleted: bool, isAnimating: bool)

  const InitialCardState := CardState(false, false)

  /** What happens to a card: its delete button is pressed, or a delete animation finishes. */
  datatype CardEvent = DeletePressed | AnimationFinished

  /**
   * `handleDelete` and its completion callback. Pressing starts the animation
   * (a card that renders nothing has no button to press); each finished
   * animation marks the card deleted and calls `onDelete` once.
   */
  function Step(s: CardState, e: CardEvent): (t: CardState)
    ensures t.isDeleted <==> s.isDeleted || e == AnimationFinished
    ensures e == DeletePressed && !s.isDeleted ==> t.isAnimating
    ensures t.isAnimating ==> s.isAnimating || e == DeletePressed
  {
    match e
    case DeletePressed => if s.isDeleted then s else s.(isAnimating := true)
    case AnimationFinished => s.(isDeleted := true)
  }

  /** The state after a run of events, and how many times `onDelete` was called. */
  function Run(s: CardState, events: seq<CardEvent>): (r: (CardState, nat))
    ensures r.1 <= |events|
    ensures AnimationFinished !in events ==> r.1 == 0 && r.0.isDeleted == s.isDeleted
    decreases |events|
  {
    if events == [] then (s, 0)
    else
      var (t, calls) := Run(Step(s, events[0]), events[1..]);
      (t, calls + (if events[0] == AnimationFinished then 1 else 0))
  }

  datatype Position = Relative | Absolute

  datatype CardView = CardView(name: string, contents: string, background: Colour,
                               deleteButton: SecondaryColour, position: Position)

  /** What the card renders: nothing once deleted, otherwise its view. */
  function Render(name: string, contents: string, color: Colour, s: CardState): (r: Option<CardView>)
    ensures r.None? <==> s.isDeleted
    ensures r.Some? ==> && r.value.background == color
                        && r.value.deleteButton == DeleteButtonColor(color)
                        && (r.value.position == Absolute <==> s.isAnimating)
  {
    if s.isDeleted then None
    else Some(CardView(name, contents, color, DeleteButtonColor(color),
                       if s.isAnimating then Absolute else Relative))
  }

  /** Once a card is deleted it stays deleted and renders nothing, whatever happens next. */
  lemma {:induction false} DeletedCardRendersNothing(name: string, contents: string, color: Colour,
                                                     s: CardState, events: seq<CardEvent>)
    requires s.isDeleted
    ensures Run(s, events).0.isDeleted
    ensures Render(name, contents, color, Run(s, events).0) == None
    decreases |events|
  {
    if events != [] {
      DeletedCardRendersNothing(name, contents, color, Step(s, events[0]), events[1..]);
    }
  }

  /** A card has been deleted exactly when `onDelete` has been called at least once. */
  lemma {:induction false} DeletedIffOnDeleteCalled(s: CardState, events: seq<CardEvent>)
    requires !s.isDeleted
    ensures Run(s, events).0.isDeleted <==> Run(s, events).1 >= 1
    decreases |events|
  {
    if events != [] {
      var t := Step(s, events[0]);
      if t.isDeleted {
        DeletedCardRendersNothing("", "", Unlisted, t, events[1..]);
      } else {
        DeletedIffOnDeleteCalled(t, events[1..]);
      }
    }
  }

  /** `onDelete` called k times in a row on the notes list. */
  function DeleteRepeatedly(notes: seq<Note>, id: int, k: nat): (r: seq<Note>)
    ensures |r| <= |notes|
    ensures forall n :: n in r ==> n in notes
    ensures k >= 1 ==> forall i :: 0 <= i < |r| ==> r[i].id != id
    decreases k
  {
    if k == 0 then notes else DeleteRepeatedly(DeleteNote(notes, id), id, k - 1)
  }

  /**
   * Calling `onDelete` on the notes list any number of times, at least once,
   * leaves the list as a single deletion does.
   */
  lemma {:induction false} RepeatedOnDeleteIsOneDeletion(notes: seq<Note>, id: int, k: nat)
    requires k >= 1
    ensures DeleteRepeatedly(notes, id, k) == DeleteNote(notes, id)
    decreases k
  {
    if k > 1 {
      RepeatedOnDeleteIsOneDeletion(DeleteNote(notes, id), id, k - 1);
      DeleteNoteIdempotent(notes, id);
    }
  }

  /** The double press: both callbacks fire, the card is deleted, and `onDelete` runs twice. */
  lemma DoublePressCallsOnDeleteTwice()
    ensures Run(InitialCardState, [DeletePressed, DeletePressed, AnimationFinished, AnimationFinished])
      == (CardState(true, true), 2)
  {
  }
}
