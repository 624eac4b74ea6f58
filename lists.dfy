/** The searches of .NET's `LinkedList<T>` that the snake relies on.
    A node is identified by its position, so comparing two found nodes
    is comparing two indices. */
module Lists {
  import opened Wrappers

  /** `LinkedList.Find`: the first position holding `v`, or none. */
  function Find<T(==)>(s: seq<T>, v: T): (r: Option<nat>)
    ensures r.Some? <==> v in s
    ensures r.Some? ==> r.value < |s| && s[r.value] == v && v !in s[..r.value]
  {
    if |s| == 0 then None
    else if s[0] == v then Some(0)
    else match Find(s[1..], v)
      case None => None
      case Some(i) =>
        assert s[..i + 1] == [s[0]] + s[1..][..i];
        Some(i + 1)
  }

  /** `LinkedList.FindLast`: the last position holding `v`, or none. */
  function FindLast<T(==)>(s: seq<T>, v: T): (r: Option<nat>)
    ensures r.Some? <==> v in s
    ensures r.Some? ==> r.value < |s| && s[r.value] == v && v !in s[r.value + 1..]
  {
    if |s| == 0 then None
    else if s[|s| - 1] == v then Some(|s| - 1)
    else
      var init := s[..|s| - 1];
      assert s == init + [s[|s| - 1]];
      match FindLast(init, v)
      case None => None
      case Some(i) =>
        assert s[i + 1..] == init[i + 1..] + [s[|s| - 1]];
        Some(i)
  }
}
