/**
 Words of 64 bits as sets of positions.

 A capability has one bit of a word, and users have words with several bits set.  The masking
 operations on words are adding, removing and testing a position.
 */
module Words {

  const WIDTH: nat := 64

  lemma SmallIsBack(b: bv64)
    requires b < 64
    ensures (b as nat) as bv64 == b
  {
  }

  lemma NextSmall(b: bv64)
    requires b < 63
    ensures (b + 1) as nat == b as nat + 1
  {
  }

  lemma SmallByValue(b: bv64, i: nat)
    requires b as nat == i < 63
    ensures b < 63
  {
  }

  /** Every small number is the value of some word. */
  lemma {:induction false} WordOf(i: nat) returns (b: bv64)
    requires i < WIDTH
    ensures b < 64 && b as nat == i
  {
    if i == 0 {
      b := 0;
    } else {
      var c := WordOf(i - 1);
      SmallByValue(c, i - 1);
      NextSmall(c);
      b := c + 1;
    }
  }

  /** Different positions are different as shift distances. */
  lemma PositionAsWord(i: nat)
    requires i < WIDTH
    ensures i as bv64 < 64 && (i as bv64) as nat == i
  {
    var b := WordOf(i);
    SmallIsBack(b);
  }

  /** Whether two words have a one in common. */
  predicate Meet(a: bv64, b: bv64)
  {
    Common(a, b) != 0
  }

  function Common(a: bv64, b: bv64): bv64
  {
    a & b
  }

  function Union(a: bv64, b: bv64): bv64
  {
    a | b
  }

  function Minus(a: bv64, b: bv64): bv64
  {
    a & !b
  }

  lemma UnionElsewhere(a: bv64, b: bv64, c: bv64)
    requires Common(b, c) == 0
    ensures Common(Union(a, b), c) == Common(a, c)
  {
  }

  lemma UnionHere(a: bv64, b: bv64)
    ensures Common(Union(a, b), b) == b
  {
  }

  lemma MeetUnion(a: bv64, b: bv64, c: bv64)
    requires b != 0 && (b == c || !Meet(b, c))
    ensures Meet(Union(a, b), c) <==> Meet(a, c) || b == c
  {
    hide Common, Union;
    if b == c {
      UnionHere(a, b);
    } else {
      UnionElsewhere(a, b, c);
    }
  }

  lemma MinusElsewhere(a: bv64, b: bv64, c: bv64)
    requires Common(b, c) == 0
    ensures Common(Minus(a, b), c) == Common(a, c)
  {
  }

  lemma MinusHere(a: bv64, b: bv64)
    ensures Common(Minus(a, b), b) == 0
  {
  }

  lemma MeetMinus(a: bv64, b: bv64, c: bv64)
    requires b == c || !Meet(b, c)
    ensures Meet(Minus(a, b), c) <==> Meet(a, c) && b != c
  {
    hide Common, Minus;
    if b == c {
      MinusHere(a, b);
    } else {
      MinusElsewhere(a, b, c);
    }
  }

  /** The word with a one at a single position. */
  function Bit(i: nat): bv64
    requires i < WIDTH
  {
    PositionAsWord(i);
    1 as bv64 << (i as bv64)
  }

  lemma ShiftsMeetIff(i: bv64, j: bv64)
    requires i < 64 && j < 64
    ensures Meet(1 as bv64 << i, 1 as bv64 << j) <==> i == j
    ensures 1 as bv64 << i != 0
  {
  }

  function Shifted(i: bv64): bv64
    requires i < 64
  {
    1 as bv64 << i
  }

  lemma BitIsShifted(i: nat)
    requires i < WIDTH
    ensures i as bv64 < 64 && Bit(i) == Shifted(i as bv64)
  {
    PositionAsWord(i);
  }

  lemma ShiftedMeetIff(i: bv64, j: bv64)
    requires i < 64 && j < 64
    ensures (Meet(Shifted(i), Shifted(j)) <==> i == j) && Shifted(i) != 0
  {
    ShiftsMeetIff(i, j);
  }

  lemma DifferentPositions(i: nat, j: nat)
    requires i < WIDTH && j < WIDTH
    ensures i as bv64 == j as bv64 <==> i == j
  {
    PositionAsWord(i);
    PositionAsWord(j);
  }

  /** The bits at different positions do not overlap. */
  lemma BitsMeetIff(i: nat, j: nat)
    requires i < WIDTH && j < WIDTH
    ensures (Meet(Bit(i), Bit(j)) <==> i == j) && Bit(i) != 0
  {
    hide Meet, Bit, Shifted;
    BitIsShifted(i);
    BitIsShifted(j);
    ShiftedMeetIff(i as bv64, j as bv64);
    DifferentPositions(i, j);
  }

  /** The positions of the ones in a word. */
  ghost function Positions(word: bv64): set<nat>
  {
    set i | 0 <= i < WIDTH && Meet(word, Bit(i))
  }

  /** Whether a position is in a word. */
  predicate HasPosition(word: bv64, i: nat)
    requires i < WIDTH
  {
    Meet(word, Bit(i))
  }

  lemma HasPositionIff(word: bv64, i: nat)
    requires i < WIDTH
    ensures HasPosition(word, i) <==> i in Positions(word)
  {
    hide Meet, Bit;
  }

  /** Adds a position to a word. */
  function AddToMask(word: bv64, i: nat): bv64
    requires i < WIDTH
  {
    Union(word, Bit(i))
  }

  /** Removes a position from a word. */
  function DelFromMask(word: bv64, i: nat): bv64
    requires i < WIDTH
  {
    Minus(word, Bit(i))
  }

  lemma AddToMaskPositions(word: bv64, i: nat)
    requires i < WIDTH
    ensures Positions(AddToMask(word, i)) == Positions(word) + {i}
  {
    hide Meet, Bit, Union;
    forall j | 0 <= j < WIDTH
      ensures Meet(Union(word, Bit(i)), Bit(j)) <==> Meet(word, Bit(j)) || j == i
    {
      BitsMeetIff(i, i);
      BitsMeetIff(i, j);
      MeetUnion(word, Bit(i), Bit(j));
    }
  }

  lemma DelFromMaskPositions(word: bv64, i: nat)
    requires i < WIDTH
    ensures Positions(DelFromMask(word, i)) == Positions(word) - {i}
  {
    hide Meet, Bit, Minus;
    forall j | 0 <= j < WIDTH
      ensures Meet(Minus(word, Bit(i)), Bit(j)) <==> Meet(word, Bit(j)) && j != i
    {
      BitsMeetIff(i, i);
      BitsMeetIff(i, j);
      MeetMinus(word, Bit(i), Bit(j));
    }
  }

  lemma ZeroMeetsNothing(b: bv64)
    ensures !Meet(0, b)
  {
  }

  lemma NoPositions()
    ensures Positions(0) == {}
  {
    hide Meet, Bit;
    forall i | 0 <= i < WIDTH
      ensures !Meet(0, Bit(i))
    {
      ZeroMeetsNothing(Bit(i));
    }
  }
}
