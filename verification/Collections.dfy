/** What several modules need about values, sequences and texts. */
module Collections {

  datatype Option<T> = None | Some(value: T)

  ghost predicate NoDuplicates<T>(s: seq<T>)
  {
    forall i, j :: 0 <= i < j < |s| ==> s[i] != s[j]
  }

  /** The room of texts when each takes a separator besides its characters. */
  function SeparatedRoom(texts: seq<string>): nat
  {
    if texts == [] then 0 else |texts[0]| + 1 + SeparatedRoom(texts[1..])
  }

  lemma {:induction false} SeparatedRoomAppend(front: seq<string>, back: seq<string>)
    ensures SeparatedRoom(front + back) == SeparatedRoom(front) + SeparatedRoom(back)
  {
    if front == [] {
      assert front + back == back;
    } else {
      assert (front + back)[1..] == front[1..] + back;
      SeparatedRoomAppend(front[1..], back);
    }
  }
}
