/** Texts put together from parts. */
module Strings {
  import opened Wrappers

  /** The parts in order, with the separator between them. */
  function Join(parts: seq<string>, separator: string): string {
    if parts == [] then ""
    else if |parts| == 1 then parts[0]
    else Join(parts[..|parts| - 1], separator) + separator + parts[|parts| - 1]
  }

  lemma JoinNext(parts: seq<string>, part: string, separator: string)
    ensures Join(parts + [part], separator) ==
            if parts == [] then part else Join(parts, separator) + separator + part
  {
    assert (parts + [part])[..|parts|] == parts;
  }

  /** The same from the front. */
  lemma {:induction false} JoinFront(parts: seq<string>, separator: string)
    requires |parts| > 1
    ensures Join(parts, separator) == parts[0] + separator + Join(parts[1..], separator)
  {
    var n := |parts| - 1;
    var last := parts[n];
    if n > 1 {
      JoinFront(parts[..n], separator);
      assert parts[..n][1..] == parts[1..][..n - 1];
      var middle := Join(parts[1..][..n - 1], separator);
      assert parts[0] + separator + middle + separator + last == parts[0] + separator + (middle + separator + last);
    }
  }
}
