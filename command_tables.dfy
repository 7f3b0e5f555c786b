/**
 * The menu command tables of the demo: findItem, the first-match search of a
 * key over the first CommandCount entries of a table.
 */
module CommandTables {

  /** Command_t: the key, and a description (the handler pointer is not modelled). */
  datatype Command = Command(aKey: bv8, description: string)

  /** The reference search: the first position from k on holding the key, or -1. */
  function FirstFrom(keys: seq<bv8>, aKey: bv8, k: nat): (r: int)
    ensures r == -1 || k <= r < |keys|
    decreases |keys| - k
  {
    if k >= |keys| then -1 else if keys[k] == aKey then k else FirstFrom(keys, aKey, k + 1)
  }

  /** The keys of a table, in order. */
  function Keys(commands: seq<Command>): (r: seq<bv8>)
    ensures |r| == |commands|
    ensures forall i :: 0 <= i < |commands| ==> r[i] == commands[i].aKey
  {
    seq(|commands|, i requires 0 <= i < |commands| => commands[i].aKey)
  }

  /** The reference search finds the first match, and finds none exactly when there is none. */
  lemma {:induction false} FirstFromSpec(keys: seq<bv8>, aKey: bv8, k: nat)
    ensures FirstFrom(keys, aKey, k) >= 0 ==>
              keys[FirstFrom(keys, aKey, k)] == aKey &&
              forall j :: k <= j < FirstFrom(keys, aKey, k) ==> keys[j] != aKey
    ensures FirstFrom(keys, aKey, k) == -1 <==> forall j :: k <= j < |keys| ==> keys[j] != aKey
    decreases |keys| - k
  {
    if k < |keys| && keys[k] != aKey {
      FirstFromSpec(keys, aKey, k + 1);
    }
  }

  /**
   * findItem(Commands, CommandCount, aKey): the smallest i below CommandCount
   * whose key is aKey, or -1. Only the first CommandCount entries are read;
   * the source trusts CommandCount not to exceed the table.
   */
  method FindItem(commands: array<Command>, commandCount: bv8, aKey: bv8) returns (r: int)
    requires commandCount as int <= commands.Length
    ensures -1 <= r < commandCount as int
    ensures r == FirstFrom(Keys(commands[..commandCount]), aKey, 0)
    ensures r >= 0 ==> commands[r].aKey == aKey && forall j :: 0 <= j < r ==> commands[j].aKey != aKey
    ensures r == -1 <==> forall j :: 0 <= j < commandCount as int ==> commands[j].aKey != aKey
  {
    ghost var keys := Keys(commands[..commandCount]);
    assert |keys| == commandCount as int;
    assert forall j :: 0 <= j < |keys| ==> keys[j] == commands[j].aKey;
    FirstFromSpec(keys, aKey, 0);
    var i := 0;
    while i < commandCount as int
      invariant i <= commandCount as int
      invariant FirstFrom(keys, aKey, i) == FirstFrom(keys, aKey, 0)
    {
      if commands[i].aKey == aKey {
        return i;
      }
      i := i + 1;
    }
    return -1;
  }

  /**
   * The keys of Commands_L0, the top-level menu: ' ', ESC, '-', '1' to '8',
   * '-', 'a' to 'k', '-', 'p'.
   */
  const CommandsL0Keys: seq<bv8> := [
    0x20, 0x1B, 0x2D,
    0x31, 0x32, 0x33, 0x34, 0x35, 0x36, 0x37, 0x38,
    0x2D,
    0x61, 0x62, 0x63, 0x64, 0x65, 0x66, 0x67, 0x68, 0x69, 0x6A, 0x6B,
    0x2D, 0x70]

  /** With duplicate keys the first wins: '-' is found at index 2, though it also sits at 11 and 23. */
  lemma SeparatorResolvesFirst()
    ensures |CommandsL0Keys| == 25
    ensures CommandsL0Keys[2] == CommandsL0Keys[11] == CommandsL0Keys[23] == '-' as bv8
    ensures FirstFrom(CommandsL0Keys, '-' as bv8, 0) == 2
  {
    var keys := CommandsL0Keys;
    assert keys[0] == 0x20 && keys[1] == 0x1B && keys[2] == 0x2D;
    assert FirstFrom(keys, 0x2D, 2) == 2;
    assert FirstFrom(keys, 0x2D, 1) == 2;
  }
}
