/**
 * The hangman panel: it stores an error count and, when painted, draws the
 * gallows and then one more body part for each error. Pixel geometry,
 * colours and strokes are not modelled; only which parts are drawn, in
 * which order.
 */
module Figure {
  import opened Options

  /** The primitives the panel draws: four gallows lines and seven figure parts. */
  datatype Part =
    | Base | Pole | Beam | Hook
    | Head | Torso | LeftArm | RightArm | LeftLeg | RightLeg
    | Face  // the crossed-out eyes and the mouth, drawn together
  {
    /**
     * The error count a part needs to be exceeded before it is drawn;
     * `None` for the gallows, which is always drawn.
     */
    function Gate(): Option<int> {
      match this
      case Base => None
      case Pole => None
      case Beam => None
      case Hook => None
      case Head => Some(0)
      case Torso => Some(1)
      case LeftArm => Some(2)
      case RightArm => Some(3)
      case LeftLeg => Some(4)
      case RightLeg => Some(5)
      case Face => Some(6)
    }
  }

  /** Every part in drawing order. */
  const FullFigure: seq<Part> :=
    [Base, Pole, Beam, Hook, Head, Torso, LeftArm, RightArm, LeftLeg, RightLeg, Face]

  /** The gallows lines, drawn first and unconditionally. */
  const Gallows: seq<Part> := FullFigure[..4]

  /** The panel's only state. */
  datatype Panel = Panel(errors: int)

  /** `setErrors`: the count is stored as given, without clamping or checks. */
  function SetErrors(p: Panel, errors: int): (r: Panel)
    ensures r.errors == errors
  {
    p.(errors := errors)
  }

  /** `reset`: back to no errors at the start of a round. */
  function Reset(p: Panel): (r: Panel)
    ensures r.errors == 0
    ensures Drawn(r.errors) == Gallows
  {
    p.(errors := 0)
  }

  /** `errors` bounded to the range 0 to 7. */
  function Clamp(errors: int): int {
    if errors < 0 then 0 else if errors > 7 then 7 else errors
  }

  /**
   * The parts `paintComponent` draws for an error count, in drawing order.
   * A part is drawn exactly when it is part of the gallows or the count
   * exceeds its gate; the drawing is always a prefix of the full figure.
   */
  function Drawn(errors: int): (parts: seq<Part>)
    ensures parts == FullFigure[..4 + Clamp(errors)]
  {
    Gallows
    + (if errors > 0 then [Head] else [])
    + (if errors > 1 then [Torso] else [])
    + (if errors > 2 then [LeftArm] else [])
    + (if errors > 3 then [RightArm] else [])
    + (if errors > 4 then [LeftLeg] else [])
    + (if errors > 5 then [RightLeg] else [])
    + (if errors > 6 then [Face] else [])
  }

  /**
   * The threshold table: a part is drawn exactly when it belongs to the
   * gallows or the error count exceeds its gate.
   */
  lemma DrawnByGate(errors: int)
    ensures forall p: Part :: p in Drawn(errors) <==> p.Gate().None? || errors > p.Gate().value
  {
    var c := Clamp(errors);
    if c == 0 {
      assert Drawn(errors) == [Base, Pole, Beam, Hook];
    } else if c == 1 {
      assert Drawn(errors) == [Base, Pole, Beam, Hook, Head];
    } else if c == 2 {
      assert Drawn(errors) == [Base, Pole, Beam, Hook, Head, Torso];
    } else if c == 3 {
      assert Drawn(errors) == [Base, Pole, Beam, Hook, Head, Torso, LeftArm];
    } else if c == 4 {
      assert Drawn(errors) == [Base, Pole, Beam, Hook, Head, Torso, LeftArm, RightArm];
    } else if c == 5 {
      assert Drawn(errors) == [Base, Pole, Beam, Hook, Head, Torso, LeftArm, RightArm, LeftLeg];
    } else if c == 6 {
      assert Drawn(errors) == [Base, Pole, Beam, Hook, Head, Torso, LeftArm, RightArm, LeftLeg, RightLeg];
    } else {
      assert Drawn(errors) == FullFigure;
    }
  }

  /** One more error never removes a part: the old drawing is a prefix of the new one. */
  lemma DrawnGrows(errors: int)
    ensures Drawn(errors) <= Drawn(errors + 1)
    ensures forall p | p in Drawn(errors) :: p in Drawn(errors + 1)
    ensures |Drawn(errors + 1)| == |Drawn(errors)| + (if 0 <= errors < 7 then 1 else 0)
  {
  }

  /** No error, or a negative count, shows only the gallows. */
  lemma DrawnNoErrors(errors: int)
    requires errors <= 0
    ensures Drawn(errors) == Gallows
  {
  }

  /** From seven errors on the whole figure, face included, is drawn. */
  lemma DrawnComplete(errors: int)
    requires errors >= 7
    ensures Drawn(errors) == FullFigure
    ensures forall p: Part :: p in Drawn(errors)
  {
    DrawnByGate(errors);
  }
}
