/**
 * The command history of history.c: a singly linked list reached through
 * the caller's `historyList` pointer, newest command first. `HistoryList`
 * is that pointer; its ghost `nodes` lists the records in list order and
 * `Commands()` their commands. What `printf` writes is returned as lines.
 */
module History {
  import opened CStrings

  /** The size of printHistory's local array of records. */
  const MaxHistorySize: nat := 256

  /** A record of the list. Only `next` is ever written after creation. */
  class HistoryNode {
    const command: string
    var next: HistoryNode?

    /** createHistoryNode: a record holding a copy of `command`, with no successor. */
    constructor (command: string)
      ensures this.command == command && next == null
    {
      this.command := command;
      next := null;
    }
  }

  /** The commands of a sequence of records. */
  function CommandsOf(ns: seq<HistoryNode>): (cs: seq<string>)
    ensures |cs| == |ns|
    ensures forall k :: 0 <= k < |ns| ==> cs[k] == ns[k].command
  {
    seq(|ns|, k requires 0 <= k < |ns| => ns[k].command)
  }

  /** The record after position `k`, `null` after the last. */
  function SuccessorIn(ns: seq<HistoryNode>, k: nat): HistoryNode?
    requires k < |ns|
  {
    if k + 1 < |ns| then ns[k + 1] else null
  }

  /** The `next` fields of `ns` chain them in order, and the last ends the list. */
  ghost predicate Linked(ns: seq<HistoryNode>)
    reads ns
  {
    forall k {:trigger ns[k].next} :: 0 <= k < |ns| ==> ns[k].next == SuccessorIn(ns, k)
  }

  /** One line of printHistory: `printf("%d: %s\n", count, command)`. */
  function HistoryLine(count: int, command: string): string {
    Itoa(count) + ": " + command + "\n"
  }

  /**
   * What printHistory writes for a list holding `commands`, newest first:
   * the oldest command is line 1, the newest the last line.
   */
  function Listing(commands: seq<string>): seq<string> {
    seq(|commands|, k requires 0 <= k < |commands| => HistoryLine(k + 1, commands[|commands| - 1 - k]))
  }

  /** `commands` numbered from `first` on, in the given order. */
  function Numbered(commands: seq<string>, first: int): seq<string> {
    seq(|commands|, k requires 0 <= k < |commands| => HistoryLine(first + k, commands[k]))
  }

  /** The list after addToHistory has pushed each of `added`, in order, onto `commands`. */
  function PushAll(commands: seq<string>, added: seq<string>): (r: seq<string>)
    ensures |r| == |commands| + |added|
    decreases |added|
  {
    if added == [] then commands else PushAll([added[0]] + commands, added[1..])
  }

  /**
   * A new command is printed after every older one, with the next number;
   * the lines already printed for the older commands stay as they were.
   */
  lemma ListingAfterAdd(commands: seq<string>, command: string)
    ensures Listing([command] + commands) == Listing(commands) + [HistoryLine(|commands| + 1, command)]
  {
    var l, l' := Listing(commands), Listing([command] + commands);
    forall k | 0 <= k < |l'|
      ensures l'[k] == (l + [HistoryLine(|commands| + 1, command)])[k]
    {
      if k < |commands| {
        assert ([command] + commands)[|commands| - k] == commands[|commands| - 1 - k];
      }
    }
  }

  /**
   * Round trip: the commands added to a history are printed after those it
   * already held, in the order they were added, numbered on consecutively.
   */
  lemma {:induction false} ListingOfPushAll(commands: seq<string>, added: seq<string>)
    ensures Listing(PushAll(commands, added)) == Listing(commands) + Numbered(added, |commands| + 1)
    decreases |added|
  {
    if added == [] {
      assert Numbered(added, |commands| + 1) == [];
    } else {
      var c := added[0];
      ListingOfPushAll([c] + commands, added[1..]);
      ListingAfterAdd(commands, c);
      var tail := Numbered(added[1..], |commands| + 2);
      assert Numbered(added, |commands| + 1) == [HistoryLine(|commands| + 1, c)] + tail;
    }
  }

  /** Adding `added` to an empty history and printing it lists them as added, from 1. */
  lemma ListingOfFreshHistory(added: seq<string>)
    ensures Listing(PushAll([], added)) == Numbered(added, 1)
  {
    ListingOfPushAll([], added);
    assert Listing([]) == [];
  }

  /** Each history line starts with its number: `atoi` reads it back. */
  lemma HistoryLineShowsCount(count: int, command: string)
    ensures Atoi(HistoryLine(count, command)) == count
  {
    assert HistoryLine(count, command) == Itoa(count) + (": " + command + "\n");
    AtoiItoa(count, ": " + command + "\n");
  }

  /** The caller's `historyList` pointer and the list it heads. */
  class HistoryList {
    var head: HistoryNode?
    ghost var nodes: seq<HistoryNode>
    ghost var Repr: set<HistoryNode>

    /** `head` starts the chain of `next` fields through `nodes`. */
    ghost predicate Valid()
      reads this, Repr
    {
      (forall k :: 0 <= k < |nodes| ==> nodes[k] in Repr) &&
      (head == if nodes == [] then null else nodes[0]) &&
      Linked(nodes)
    }

    ghost function Commands(): seq<string>
      reads this
    {
      CommandsOf(nodes)
    }

    /** An empty history: `struct History* historyList = NULL`. */
    constructor ()
      ensures Valid() && nodes == []
    {
      head := null;
      nodes := [];
      Repr := {};
    }

    /** addToHistory: a new record holding `command` becomes the head. */
    method AddToHistory(command: string)
      requires Valid()
      modifies this
      ensures Valid() && fresh(head) && Repr == old(Repr) + {head}
      ensures nodes == [head] + old(nodes)
      ensures Commands() == [command] + old(Commands()) == PushAll(old(Commands()), [command])
    {
      var newNode := new HistoryNode(command);
      newNode.next := head;
      head := newNode;
      nodes := [newNode] + nodes;
      Repr := Repr + {newNode};
    }

    /**
     * printHistory: copies the records into a local array of
     * MaxHistorySize slots, then prints them from the last copied to the
     * first, numbered from 1. The array holds at most MaxHistorySize records.
     */
    method PrintHistory() returns (lines: seq<string>)
      requires Valid() && |nodes| <= MaxHistorySize
      ensures lines == Listing(Commands())
    {
      var count := 1;
      var current := head;
      var historyArray := new HistoryNode?[MaxHistorySize];
      var index := 0;
      while current != null
        invariant 0 <= index <= |nodes|
        invariant current == if index < |nodes| then nodes[index] else null
        invariant forall k :: 0 <= k < index ==> historyArray[k] == nodes[k]
        decreases |nodes| - index
      {
        historyArray[index] := current;
        current := current.next;
        index := index + 1;
      }
      lines := [];
      var i := index - 1;
      while i >= 0
        invariant -1 <= i < index
        invariant count == index - i && |lines| == count - 1
        invariant forall k :: 0 <= k < index ==> historyArray[k] == nodes[k]
        invariant forall k :: 0 <= k < |lines| ==> lines[k] == HistoryLine(k + 1, nodes[index - 1 - k].command)
      {
        lines := lines + [HistoryLine(count, historyArray[i].command)];
        count := count + 1;
        i := i - 1;
      }
    }

    /**
     * clearHistory: every record of the list is released and the pointer
     * set to null. `released` names the records freed.
     */
    method ClearHistory() returns (ghost released: set<HistoryNode>)
      requires Valid()
      modifies this
      ensures Valid() && head == null && Commands() == []
      ensures released == set k | 0 <= k < |old(nodes)| :: old(nodes)[k]
    {
      released := set k | 0 <= k < |nodes| :: nodes[k];
      head := null;
      nodes := [];
      Repr := {};
    }

    /**
     * freeHistoryNode applied to this handle: only the record it points to,
     * if any, is released (the records after it are left unreachable), and
     * the handle is null afterwards in either case.
     */
    method FreeHistoryNode() returns (ghost released: set<HistoryNode>)
      requires Valid()
      modifies this
      ensures Valid() && head == null && Commands() == []
      ensures released == if old(nodes) == [] then {} else {old(nodes)[0]}
    {
      released := if head == null then {} else {head};
      head := null;
      nodes := [];
      Repr := {};
    }
  }
}
