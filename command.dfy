/**
 * Command_t: a command-kind tag and a growable buffer of argument strings that
 * grows by ArgBufStep slots whenever it is full.
 */
module Commands {

  /** The command kinds the tests use: UNRECOG_CMD, QUERY_CMD and INSERT_CMD. */
  datatype CommandType = UnrecognizedCmd | QueryCmd | InsertCmd

  /** The growth step of the argument buffer. */
  const ArgBufStep: nat := 5

  /** The capacity a buffer reaches by growing in steps: the least multiple of ArgBufStep that holds n arguments. */
  function ArgCapacity(n: nat): (cap: nat)
    ensures cap % ArgBufStep == 0 && n <= cap < n + ArgBufStep
  {
    if n % ArgBufStep == 0 then n else n + (ArgBufStep - n % ArgBufStep)
  }

  /**
   * Appending keeps a buffer at the stepped capacity: a buffer with room keeps
   * its capacity, and a full one gains exactly one step.
   */
  lemma ArgCapacityAfterAppend(len: nat, cap: nat)
    requires cap == ArgCapacity(len)
    ensures ArgCapacity(len + 1) == (if len == cap then cap + ArgBufStep else cap)
  {
  }

  /** A command whose arguments spell out `insert id name email age`. */
  predicate IsInsertQuery(kind: CommandType, args: seq<string>)
  {
    kind == QueryCmd && |args| == 5 && args[0] == "insert"
  }

  class Command {
    var kind: CommandType
    var args: array?<string>
    var argsLen: nat
    var argsCap: nat

    /** args is NULL exactly until the first successful append, and then has argsCap slots. */
    ghost predicate Valid()
      reads this
    {
      && (args == null ==> argsLen == 0 && argsCap == 0)
      && (args != null ==> args.Length == argsCap && argsLen <= argsCap)
    }

    /** The arguments appended so far. */
    ghost function Args(): (a: seq<string>)
      reads this, args
      requires Valid()
    {
      if args == null then [] else args[..argsLen]
    }

    /** new_Command: an unrecognized command with no argument buffer. */
    constructor ()
      ensures Valid() && kind == UnrecognizedCmd
      ensures args == null && argsLen == 0 && argsCap == 0 && Args() == []
    {
      kind := UnrecognizedCmd;
      args := null;
      argsLen := 0;
      argsCap := 0;
    }

    /** A command written out field by field: `items` fill the buffer, which has no spare slot. */
    constructor FromFields(kind: CommandType, items: seq<string>)
      ensures Valid() && this.kind == kind && fresh(args)
      ensures Args() == items && argsLen == |items| && argsCap == |items|
    {
      this.kind := kind;
      var buf := new string[|items|](i requires 0 <= i < |items| => items[i]);
      args := buf;
      argsLen := |items|;
      argsCap := |items|;
      new;
      assert args[..] == items;
    }

    /**
     * add_Arg: appends `arg` and returns 0. A full buffer first grows by
     * ArgBufStep slots into a new array; when `allocFails`, that allocation
     * fails and the call returns 1 with the command left as it was.
     */
    method AddArg(arg: string, allocFails: bool) returns (ret: int)
      requires Valid()
      modifies this`args, this`argsLen, this`argsCap, args
      ensures Valid() && kind == old(kind)
      ensures ret == 0 <==> !(old(argsLen) == old(argsCap) && allocFails)
      ensures ret != 0 ==> ret == 1 && args == old(args) && argsLen == old(argsLen) && argsCap == old(argsCap) && Args() == old(Args())
      ensures ret == 0 ==>
        && Args() == old(Args()) + [arg]
        && argsLen == old(argsLen) + 1
        && argsCap == (if old(argsLen) == old(argsCap) then old(argsCap) + ArgBufStep else old(argsCap))
        && args[argsLen - 1] == arg
      ensures ret == 0 && old(argsLen) == old(argsCap) ==> fresh(args)
      ensures old(argsLen) < old(argsCap) ==> args == old(args)
      ensures old(argsCap == ArgCapacity(argsLen)) ==> argsCap == ArgCapacity(argsLen)
    {
      if argsLen == argsCap {
        if allocFails {
          return 1;
        }
        Grow();
      }
      if old(argsCap == ArgCapacity(argsLen)) {
        ArgCapacityAfterAppend(old(argsLen), old(argsCap));
      }
      args[argsLen] := arg;
      argsLen := argsLen + 1;
      ret := 0;
    }

    /** Moves the arguments into a new buffer with ArgBufStep more slots. */
    method Grow()
      requires Valid()
      modifies this`args, this`argsCap
      ensures Valid() && fresh(args) && argsCap == old(argsCap) + ArgBufStep
      ensures argsLen < argsCap && Args() == old(Args())
    {
      var buf := new string[argsCap + ArgBufStep];
      var i := 0;
      while i < argsLen
        invariant 0 <= i <= argsLen
        invariant buf[..i] == old(Args())[..i]
        modifies buf
      {
        buf[i] := args[i];
        i := i + 1;
      }
      args := buf;
      argsCap := argsCap + ArgBufStep;
      assert args[..argsLen] == buf[..argsLen];
    }

    /**
     * handle_insert_cmd: a query command whose arguments spell out an insert
     * becomes an insert command and the result is nonzero; any other command
     * is left as it was and the result is 0.
     */
    method HandleInsertCmd() returns (ret: int)
      requires Valid()
      modifies this`kind
      ensures ret != 0 <==> IsInsertQuery(old(kind), Args())
      ensures kind == (if ret != 0 then InsertCmd else old(kind))
    {
      if kind == QueryCmd && argsLen == 5 && args[0] == "insert" {
        kind := InsertCmd;
        ret := 1;
      } else {
        ret := 0;
      }
    }
  }
}
