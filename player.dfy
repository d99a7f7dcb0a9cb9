/** The two participants of the game (Player.swift). */
module Players {
  import opened Chips

  /** The display colour a player's chips are drawn in. */
  datatype Colour = RedColour | BlackColour

  /**
   * A player. Every other property of a player is fixed at construction
   * from its chip alone, so the chip is the whole of its state.
   */
  datatype Player = Player(chip: Chip) {

    /** The identifier the search framework sees: the chip's raw value. */
    function PlayerId(): (id: int)
      ensures 0 <= id <= 2
      ensures id == 0 <==> chip == None
    {
      chip.RawValue()
    }

    /** The label shown on screen: the red player is the human, any other chip the AI. */
    function Name(): (s: string)
      ensures |s| > 0
    {
      if chip == Red then "PLAYER ONE (RED)" else "AI (BLACK)"
    }

    /** The colour of the player's chips on screen, red for red and black otherwise. */
    function Colour(): (c: Colour)
      ensures c == RedColour <==> chip == Red
    {
      if chip == Red then RedColour else BlackColour
    }

    /**
     * The other participant: the red player's opponent is the second
     * shared player, and every other player's is the first.
     */
    function Opponent(): (q: Player)
      ensures q in AllPlayers
      ensures q.chip != None
      ensures chip != None ==> q.chip != chip
    {
      if chip == Red then AllPlayers[1] else AllPlayers[0]
    }
  }

  /** The two shared players, red first: red moves first in every new game. */
  const AllPlayers: seq<Player> := [Player(Red), Player(Black)]

  /** There are exactly two players; red is first, black second, and neither holds the empty chip. */
  lemma AllPlayersShape()
    ensures |AllPlayers| == 2
    ensures AllPlayers[0].chip == Red && AllPlayers[1].chip == Black
    ensures forall p :: p in AllPlayers ==> p.chip != None
    ensures AllPlayers[0].PlayerId() == 1 && AllPlayers[1].PlayerId() == 2
  {
  }

  /** A player's id is the raw value of its chip, so red is 1 and black is 2. */
  lemma PlayerIdIsRawValue(p: Player)
    ensures p.PlayerId() == p.chip.RawValue()
    ensures p.chip == Red ==> p.PlayerId() == 1
    ensures p.chip == Black ==> p.PlayerId() == 2
  {
  }

  /** Name and colour depend only on whether the chip is red. */
  lemma NameAndColourByChip(p: Player)
    ensures p.chip == Red ==> p.Name() == "PLAYER ONE (RED)" && p.Colour() == RedColour
    ensures p.chip != Red ==> p.Name() == "AI (BLACK)" && p.Colour() == BlackColour
  {
  }

  /**
   * Turn order is an involution on the shared players: each one's opponent's
   * opponent is itself, and the two never share a chip.
   */
  lemma OpponentInvolutive(p: Player)
    requires p in AllPlayers
    ensures p.Opponent().Opponent() == p
    ensures p.Opponent() != p
    ensures p.Opponent().chip != p.chip
  {
  }

  /** Any player whose chip is neither empty nor red is treated as black: its opponent is red. */
  lemma OpponentOfNonRed(p: Player)
    ensures p.chip == Red ==> p.Opponent() == AllPlayers[1]
    ensures p.chip != Red ==> p.Opponent() == AllPlayers[0]
  {
  }
}
