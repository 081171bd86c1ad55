/** The timed whack-a-mole board (components/Game.tsx): nine moles, a score,
    a fifteen-second countdown; the game ends, and calls onComplete, once. */
module CountdownGame {

  datatype Status = Down | Up | Hit
  datatype Kind = Normal | Heart
  datatype Mole = Mole(id: int, status: Status, kind: Kind)

  /** Cells of the board. */
  const CELLS: nat := 9
  /** Seconds on the clock when the game starts. */
  const DURATION: nat := 15
  /** Points for one hit. */
  const POINTS: nat := 10

  /** The mole of one cell with its status changed. */
  function WithStatus(m: Mole, s: Status): (r: Mole)
    ensures r.id == m.id && r.kind == m.kind && r.status == s
  {
    m.(status := s)
  }

  class Game {
    const moles: array<Mole>
    var score: int
    var timeLeft: int
    var gameActive: bool
    /** How many times onComplete has been called. */
    var completions: nat

    /** The state every handler keeps: each cell holds its own normal mole,
      the score is a non-negative multiple of the points for a hit, the clock
      stays within the duration, the game is never running at zero and has
      been completed exactly when the clock is at zero; before the start
      nothing has moved. */
    predicate Valid()
      reads this, moles
    {
      && moles.Length == CELLS
      && (forall i | 0 <= i < CELLS :: moles[i].id == i && moles[i].kind == Normal)
      && score >= 0 && score % POINTS == 0
      && 0 <= timeLeft <= DURATION
      && (timeLeft == 0 ==> !gameActive)
      && completions == (if timeLeft == 0 then 1 else 0)
      && (!gameActive && timeLeft > 0 ==> NotStarted())
    }

    /** The first render: the full clock, no score, every mole down. */
    predicate NotStarted()
      reads this, moles
    {
      && timeLeft == DURATION && score == 0
      && forall i | 0 <= i < moles.Length :: moles[i].status == Down
    }

    constructor()
      ensures Valid() && fresh(moles) && NotStarted()
      ensures !gameActive && completions == 0
      ensures moles[..] == seq(CELLS, i => Mole(i, Down, Normal))
    {
      moles := new Mole[CELLS](i => Mole(i, Down, Normal));
      score := 0;
      timeLeft := DURATION;
      gameActive := false;
      completions := 0;
    }

    /** The mount effect: the game starts. */
    method Start()
      requires Valid() && !gameActive && NotStarted()
      modifies this
      ensures Valid() && gameActive
      ensures score == old(score) && timeLeft == old(timeLeft) && completions == old(completions)
    {
      gameActive := true;
    }

    /** One second of the countdown. While the game runs the clock goes down
      by one; when it reaches zero the game stops and onComplete is called.
      Once stopped, nothing changes. */
    method Tick()
      requires Valid()
      modifies this
      ensures Valid()
      ensures old(gameActive) ==> timeLeft == old(timeLeft) - 1
      ensures old(gameActive) ==> (gameActive <==> timeLeft > 0)
      ensures old(gameActive) ==> completions == old(completions) + (if timeLeft == 0 then 1 else 0)
      ensures !old(gameActive) ==> gameActive == old(gameActive) && timeLeft == old(timeLeft)
                                   && completions == old(completions)
      ensures score == old(score)
    {
      if gameActive {
        timeLeft := timeLeft - 1;
        if timeLeft == 0 {
          gameActive := false;
          completions := completions + 1;
        }
      }
    }

    /** One tick of the spawn interval, which runs only while the game does:
      the mole of cell idx comes up if it was down. */
    method Spawn(idx: nat)
      requires Valid() && idx < CELLS
      modifies moles
      ensures Valid()
      ensures gameActive && old(moles[idx].status) == Down
              ==> moles[..] == old(moles[..])[idx := WithStatus(old(moles[idx]), Up)]
      ensures !(gameActive && old(moles[idx].status) == Down) ==> moles[..] == old(moles[..])
    {
      if gameActive && moles[idx].status == Down {
        moles[idx] := WithStatus(moles[idx], Up);
      }
    }

    /** The timeout set by a spawn: cell idx goes down if it is still up. */
    method AutoHide(idx: nat)
      requires Valid() && idx < CELLS
      modifies moles
      ensures Valid()
      ensures old(moles[idx].status) == Up ==> moles[..] == old(moles[..])[idx := WithStatus(old(moles[idx]), Down)]
      ensures old(moles[idx].status) != Up ==> moles[..] == old(moles[..])
    {
      if moles[idx].status == Up {
        moles[idx] := WithStatus(moles[idx], Down);
      }
    }

    /** A click on cell i: while the game runs, a mole that is up is hit and
      scores; anything else changes nothing. */
    method Whack(i: nat)
      requires Valid() && i < CELLS
      modifies this, moles
      ensures Valid()
      ensures gameActive == old(gameActive) && timeLeft == old(timeLeft) && completions == old(completions)
      ensures old(gameActive) && old(moles[i].status) == Up ==>
                score == old(score) + POINTS && moles[..] == old(moles[..])[i := WithStatus(old(moles[i]), Hit)]
      ensures !(old(gameActive) && old(moles[i].status) == Up) ==>
                score == old(score) && moles[..] == old(moles[..])
    {
      if gameActive && moles[i].status == Up {
        moles[i] := WithStatus(moles[i], Hit);
        score := score + POINTS;
      }
    }

    /** The timeout set by a hit: cell index goes down, whatever it shows. */
    method HitReset(index: nat)
      requires Valid() && index < CELLS
      modifies moles
      ensures Valid()
      ensures moles[..] == old(moles[..])[index := WithStatus(old(moles[index]), Down)]
    {
      moles[index] := WithStatus(moles[index], Down);
    }
  }
}
