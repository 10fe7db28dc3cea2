/** The string primitive of the legacy second stage. */
module LegacyStrings {
  import opened Bytes
  import Strings

  /** strlen: advances a cursor until it reads NUL; reads memory only. */
  method Strlen(mem: array<byte>, start: nat) returns (n: nat)
    ensures At(mem[..], start + n) == 0
    ensures forall j :: start <= j < start + n ==> At(mem[..], j) != 0
    ensures n == Strings.StrLen(mem[..], start)
  {
    var end := start;
    while end < mem.Length && mem[end] != 0
      invariant start <= end
      invariant forall j :: start <= j < end ==> At(mem[..], j) != 0
      decreases mem.Length - end
    {
      end := end + 1;
    }
    n := end - start;
    Strings.StrLenUnique(mem[..], start, n);
  }
}
