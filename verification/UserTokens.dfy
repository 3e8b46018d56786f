/** The user's dictionary as `load_extras` leaves it (AFLGo/afl-fuzz.c:1997-2056): read from a file, then
    sorted by size. */
module UserTokens {
  import opened Bytes
  import opened Platform
  import opened Dictionary
  import opened Extras
  import opened Sorting

  /** A token as the mutation stages see it. */
  function Bits(d: seq<byte>): (t: seq<bv8>)
    ensures |t| == |d|
  {
    seq(|d|, i requires 0 <= i < |d| => d[i] as bv8)
  }

  function AllBits(ds: seq<seq<byte>>): (ts: seq<Token>)
    requires [] !in ds
    ensures |ts| == |ds|
  {
    seq(|ds|, i requires 0 <= i < |ds| => Bits(ds[i]))
  }

  function Size(t: Token): int {
    |t|
  }

  lemma InSizeOrder(tokens: seq<Token>)
    requires InOrder(tokens, Size)
    ensures SizeOrder(tokens)
  {
    forall i, j | 0 <= i < j < |tokens| ensures |tokens[i]| <= |tokens[j]| {
      assert Size(tokens[i]) <= Size(tokens[j]);
    }
  }

  /** Every keyword of the file becomes a token, and they come in the order of size that the overwrite stage
      needs.  A malformed line or a file without keywords is fatal. */
  method LoadExtras(file: seq<byte>, level: nat) returns (r: Outcome<seq<Token>>)
    ensures r.Fatal? <==> Load(file, level).Fatal? || Load(file, level).value == []
    ensures r.Done? ==> [] !in Load(file, level).value
    ensures r.Done? ==> SizeOrder(r.value) && multiset(r.value) == multiset(AllBits(Load(file, level).value))
  {
    hide Load;
    LoadedSizes(file, level);
    var loaded := LoadExtrasFile(file, level);
    if loaded.Fatal? || loaded.value == [] {
      return Fatal;
    }
    var extras := Qsort(AllBits(loaded.value), Size);
    InSizeOrder(extras);
    r := Done(extras);
  }
}
