/**
 Serialising a message to a line.

 A line is the source, the command and the parameters, the last of which may contain spaces.  What
 is beyond the limit is cut off, so whoever splits a long reply over several lines must leave
 enough room; for the parts of the server that do, it is proved elsewhere that nothing is lost.
 */
module Serializer {
  import opened Collections

  /** The parameters as they appear in a line. */
  function Parameters(params: seq<string>): string
  {
    if params == [] then ""
    else if |params| == 1 then " :" + params[0]
    else " " + params[0] + Parameters(params[1..])
  }

  /** The message without its end. */
  function Line(source: string, command: string, params: seq<string>): string
  {
    ":" + source + " " + command + Parameters(params)
  }

  /** What is sent: the line up to the limit, and its end. */
  function Serialize(limit: nat, line: string): string
    requires limit >= 2
  {
    (if |line| > limit - 2 then line[..limit - 2] else line) + "\r\n"
  }

  /** A line arrives whole if and only if it leaves room for its end; no line is longer than the limit. */
  lemma WholeIff(limit: nat, line: string)
    requires limit >= 2
    ensures |Serialize(limit, line)| <= limit
    ensures Serialize(limit, line) == line + "\r\n" <==> |line| + 2 <= limit
  {
  }

  /** Every parameter takes a separator, and the last one a colon. */
  lemma {:induction false} ParametersLength(params: seq<string>)
    requires params != []
    ensures |Parameters(params)| == SeparatedRoom(params) + 1
    decreases params
  {
    if |params| == 1 {
      assert params[1..] == [];
    } else {
      ParametersLength(params[1..]);
    }
  }

  lemma LineLength(source: string, command: string, params: seq<string>)
    requires params != []
    ensures |Line(source, command, params)| == |source| + |command| + SeparatedRoom(params) + 3
  {
    ParametersLength(params);
  }
}
