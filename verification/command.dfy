/**
 * The POST handler the firmware passes to every connection: the body is
 * matched byte for byte against `led=on` and `led=off`, which drive the LED's
 * output pin high or low; anything else only produces a diagnostic.
 */
module Command {
  import opened Base

  const LedOn: seq<Byte> := AsciiBytes("led=on")
  const LedOff: seq<Byte> := AsciiBytes("led=off")

  /** The single effect of one POST body: set the pin high, set it low, or log `Bad POST request`. */
  datatype Command = SetHigh | SetLow | Unrecognized

  /** Output level of the LED pin (it starts `Low`). */
  datatype Level = Low | High

  /** The match in the POST handler. */
  function Classify(body: seq<Byte>): (c: Command)
    ensures c == SetHigh <==> body == LedOn
    ensures c == SetLow <==> body == LedOff
  {
    if body == LedOn then SetHigh
    else if body == LedOff then SetLow
    else Unrecognized
  }

  /** The body that issues a recognised command. */
  function Encode(c: Command): (body: seq<Byte>)
    requires c != Unrecognized
  {
    if c == SetHigh then LedOn else LedOff
  }

  /** The two vocabularies agree in both directions. */
  lemma ClassifyEncode(c: Command, body: seq<Byte>)
    ensures c != Unrecognized ==> Classify(Encode(c)) == c
    ensures Classify(body) != Unrecognized ==> Encode(Classify(body)) == body
  {
  }

  /** The pin after a command. */
  function Apply(level: Level, c: Command): (l: Level) {
    match c
    case SetHigh => High
    case SetLow => Low
    case Unrecognized => level
  }

  /**
   * One call of the POST handler: `led=on` leaves the pin high, `led=off`
   * leaves it low, and every other body leaves it as it was.
   */
  function OnPost(level: Level, body: seq<Byte>): (l: Level)
    ensures body == LedOn ==> l == High
    ensures body == LedOff ==> l == Low
    ensures body != LedOn && body != LedOff ==> l == level
  {
    Apply(level, Classify(body))
  }

  /** The POST handler called on each body in turn. */
  function OnPosts(level: Level, bodies: seq<seq<Byte>>): Level
    decreases |bodies|
  {
    if bodies == [] then level else OnPosts(OnPost(level, bodies[0]), bodies[1..])
  }

  /** Body `i` is a recognised command and no later body is. */
  predicate LastCommand(bodies: seq<seq<Byte>>, i: int) {
    && 0 <= i < |bodies|
    && Classify(bodies[i]) != Unrecognized
    && forall j :: i < j < |bodies| ==> Classify(bodies[j]) == Unrecognized
  }

  /**
   * After several POSTs the pin is set by the last recognised command; with
   * none, it keeps its level.
   */
  lemma {:induction false} OnPostsIsLastCommand(level: Level, bodies: seq<seq<Byte>>)
    ensures (forall i :: 0 <= i < |bodies| ==> Classify(bodies[i]) == Unrecognized)
      ==> OnPosts(level, bodies) == level
    ensures forall i :: LastCommand(bodies, i) ==>
      OnPosts(level, bodies) == Apply(level, Classify(bodies[i]))
    decreases |bodies|
  {
    if bodies != [] {
      var rest := bodies[1..];
      var next := OnPost(level, bodies[0]);
      OnPostsIsLastCommand(next, rest);
      forall i | LastCommand(bodies, i)
        ensures OnPosts(level, bodies) == Apply(level, Classify(bodies[i]))
      {
        if i > 0 {
          assert LastCommand(rest, i - 1) by {
            forall j | i - 1 < j < |rest| ensures Classify(rest[j]) == Unrecognized {
              assert rest[j] == bodies[j + 1];
            }
          }
        } else {
          forall j | 0 <= j < |rest| ensures Classify(rest[j]) == Unrecognized {
            assert rest[j] == bodies[j + 1];
          }
        }
      }
      if forall i :: 0 <= i < |bodies| ==> Classify(bodies[i]) == Unrecognized {
        assert Classify(bodies[0]) == Unrecognized;
        forall j | 0 <= j < |rest| ensures Classify(rest[j]) == Unrecognized {
          assert rest[j] == bodies[j + 1];
        }
      }
    }
  }
}
