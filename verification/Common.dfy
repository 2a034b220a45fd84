/** What several modules share. */
module Common {

  datatype Option<T> = None | Some(value: T)

  datatype Answer = Yes | No

  /** A property stated "for all at with Look(at)" is looked at only where Look is mentioned. */
  ghost predicate Look(at: int) { true }

  // Widths of the C types.

  const UINT_MODULUS: nat := 0x1_0000_0000
  const ULONG_MODULUS: nat := 0x1_0000_0000_0000_0000

  /** The size of a body that is not known: all bits of an unsigned 64-bit number. */
  const SIZE_UNKNOWN: nat := 0xFFFF_FFFF_FFFF_FFFF

  /** What is offered of the buffered bytes of a body that is not chunked: no more than is to come, where known. */
  function Offered(remaining: nat, available: nat): nat {
    if remaining != 0 && remaining != SIZE_UNKNOWN && remaining < available then remaining else available
  }

  /** The stream that segments make up. */
  function Joined(segments: seq<string>): string {
    if segments == [] then "" else Joined(segments[..|segments| - 1]) + segments[|segments| - 1]
  }

  /** The first segments make up a beginning of the stream. */
  lemma JoinedPrefix(segments: seq<string>, n: nat)
    requires n <= |segments|
    ensures Joined(segments[..n]) <= Joined(segments)
  {
    if n < |segments| {
      JoinedPrefix(segments[..|segments| - 1], n);
      assert segments[..|segments| - 1][..n] == segments[..n];
    } else {
      assert segments[..n] == segments;
    }
  }
}
