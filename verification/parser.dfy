/**
 * The operator parser of bash_func.c, `parseCommandsFromWords`. Every token
 * becomes one `Command` node: a word node carries `[token]` as its argument
 * vector, an operator node carries none. Nodes are first chained in token
 * order; each new word node is then also linked from the previous word
 * node, so a chain that starts at a word skips the operators between words.
 *
 * The shape of the chain is specified on the tokens' operator codes
 * `cs == Codes(ws)` (0 for a word): `Next(cs, n, k)` is the node that node
 * `k` points to once the first `n` tokens are parsed, and `Chain(cs, k)`
 * is the walk along `next` from node `k`.
 */
module Parser {
  import opened Wrappers

  /** Operator flag codes carried by Command nodes and by `firstOperatorFlag`. */
  const PipeFlag := 1
  const BackgroundFlag := 2
  const OrFlag := 3
  const AndFlag := 4
  const SeqFlag := 5

  /** The flag code of an operator token, 0 for a word. */
  function OperatorCode(t: string): (c: int)
    ensures 0 <= c <= 5
    ensures c == 0 <==> t !in {"|", "&", "||", "&&", ";"}
  {
    if t == "|" then PipeFlag
    else if t == "&" then BackgroundFlag
    else if t == "||" then OrFlag
    else if t == "&&" then AndFlag
    else if t == ";" then SeqFlag
    else 0
  }

  /** The operator codes of a token list. */
  function Codes(ws: seq<string>): (cs: seq<int>)
    ensures |cs| == |ws|
  {
    if ws == [] then [] else Codes(ws[..|ws| - 1]) + [OperatorCode(ws[|ws| - 1])]
  }

  lemma {:induction false} CodeAt(ws: seq<string>, k: nat)
    requires k < |ws|
    ensures Codes(ws)[k] == OperatorCode(ws[k])
  {
    if k < |ws| - 1 {
      CodeAt(ws[..|ws| - 1], k);
    }
  }

  /** Codes of operators that set the running flag of later word nodes: all but `;`. */
  predicate SetsRunningFlag(c: int) {
    1 <= c <= 4
  }

  /** The index of the first operator at or after `from`. */
  function FirstOperatorIndex(cs: seq<int>, from: nat): (r: Option<nat>)
    requires from <= |cs|
    ensures r.Some? ==> from <= r.value < |cs| && cs[r.value] != 0
    ensures r.Some? ==> forall j :: from <= j < r.value ==> cs[j] == 0
    ensures r.None? ==> forall j :: from <= j < |cs| ==> cs[j] == 0
    decreases |cs| - from
  {
    if from == |cs| then None
    else if cs[from] != 0 then Some(from)
    else FirstOperatorIndex(cs, from + 1)
  }

  /**
   * The `firstOperatorFlag` the parser reports: the code of the first
   * operator token, or the caller's value when there is none.
   */
  function FirstOperatorFlag(ws: seq<string>, flag: int): int {
    match FirstOperatorIndex(Codes(ws), 0)
    case None => flag
    case Some(k) => Codes(ws)[k]
  }

  /** `currentFlag` before token `n`: the code of the latest `|`, `&`, `||` or `&&`, else 0. */
  function RunningFlag(cs: seq<int>, n: nat): (f: int)
    requires n <= |cs|
    ensures f == 0 || SetsRunningFlag(f)
  {
    if n == 0 then 0
    else if SetsRunningFlag(cs[n - 1]) then cs[n - 1]
    else RunningFlag(cs, n - 1)
  }

  /**
   * The flag of node `k`. A `;` node keeps flag 0 and leaves the running
   * flag alone: bash_func.c:179-180 compare with `==` where they evidently
   * meant to assign 5.
   */
  function NodeFlag(cs: seq<int>, k: nat): int
    requires k < |cs|
  {
    if SetsRunningFlag(cs[k]) then cs[k]
    else if cs[k] != 0 then 0
    else RunningFlag(cs, k)
  }

  /** The argument vector of node `k`: `[token]` for a word, none (NULL) for an operator. */
  function NodeWords(ws: seq<string>, cs: seq<int>, k: nat): seq<string>
    requires |cs| == |ws| && k < |ws|
  {
    if cs[k] == 0 then [ws[k]] else []
  }

  /** The first word at or after `j` among the first `n` tokens. */
  function NextWord(cs: seq<int>, n: nat, j: nat): (r: Option<nat>)
    requires n <= |cs|
    ensures r.Some? ==> j <= r.value < n && cs[r.value] == 0
    ensures r.Some? ==> forall p :: j <= p < r.value ==> cs[p] != 0
    ensures r.None? ==> forall p :: j <= p < n ==> cs[p] != 0
    decreases n - j
  {
    if j >= n then None
    else if cs[j] == 0 then Some(j)
    else NextWord(cs, n, j + 1)
  }

  /** The last word among the first `n` tokens (`lastWordCommand`). */
  function LastWordBefore(cs: seq<int>, n: nat): (r: Option<nat>)
    requires n <= |cs|
    ensures r.Some? ==> r.value < n && cs[r.value] == 0
    ensures r.Some? ==> forall p :: r.value < p < n ==> cs[p] != 0
    ensures r.None? ==> forall p :: 0 <= p < n ==> cs[p] != 0
  {
    if n == 0 then None
    else if cs[n - 1] == 0 then Some(n - 1)
    else LastWordBefore(cs, n - 1)
  }

  /**
   * Where node `k`'s `next` points once the first `n` tokens are parsed: a
   * word node points at the next word node when there is one; otherwise a
   * node points at the node created right after it, if any.
   */
  function Next(cs: seq<int>, n: nat, k: nat): (r: Option<nat>)
    requires k < n <= |cs|
    ensures r.Some? ==> k < r.value < n
  {
    if cs[k] == 0 && NextWord(cs, n, k + 1).Some? then NextWord(cs, n, k + 1)
    else if k + 1 < n then Some(k + 1)
    else None
  }

  /** The walk along `next` from node `k` of the parsed chain. */
  function Chain(cs: seq<int>, k: nat): (c: seq<nat>)
    requires k < |cs|
    decreases |cs| - k
  {
    match Next(cs, |cs|, k)
    case None => [k]
    case Some(m) => [k] + Chain(cs, m)
  }

  /** The indices of the words at or after `j`, in order. */
  function WordIndicesFrom(cs: seq<int>, j: nat): seq<nat>
    decreases |cs| - j
  {
    if j >= |cs| then []
    else (if cs[j] == 0 then [j] else []) + WordIndicesFrom(cs, j + 1)
  }

  function Range(a: nat, b: nat): (r: seq<nat>)
    requires a <= b
    ensures |r| == b - a && forall p :: 0 <= p < |r| ==> r[p] == a + p
  {
    seq(b - a, p => a + p)
  }

  /**
   * A node of the command chain: `struct Command`. The argument vector and
   * the flag are written once, in the iteration that allocates the node,
   * and never again, so they are constructor arguments here; `next` is
   * relinked later.
   */
  class Command {
    /** The argument vector; `[]` stands for the NULL of an operator node. */
    const words: seq<string>
    const flag: int
    var next: Command?

    constructor (words: seq<string>, flag: int)
      ensures this.words == words && this.flag == flag && next == null
    {
      this.words := words;
      this.flag := flag;
      next := null;
    }
  }

  /** The node of an index, or null. */
  function NodeAt(nodes: seq<Command>, r: Option<nat>): Command? {
    if r.Some? && r.value < |nodes| then nodes[r.value] else null
  }

  // ---------------------------------------------------------------------
  // Lemmas on the chain's shape

  /** `lastWordCommand` is the word node that has no later word yet. */
  lemma LastWordIsWordWithoutSuccessor(cs: seq<int>, n: nat, k: nat)
    requires k < n <= |cs|
    ensures LastWordBefore(cs, n) == Some(k) <==> (cs[k] == 0 && NextWord(cs, n, k + 1).None?)
  {
    if cs[k] == 0 && NextWord(cs, n, k + 1).None? {
      var last := LastWordBefore(cs, n);
      assert last.Some?;
      assert last.value >= k;
    }
  }

  /** Adding token `n` extends the search for a word by one position. */
  lemma {:induction false} NextWordExtend(cs: seq<int>, n: nat, j: nat)
    requires j <= n < |cs|
    ensures NextWord(cs, n + 1, j) ==
      if NextWord(cs, n, j).Some? then NextWord(cs, n, j)
      else if cs[n] == 0 then Some(n) else None
    decreases n - j
  {
    if j < n && cs[j] != 0 {
      NextWordExtend(cs, n, j + 1);
    }
  }

  /**
   * Parsing token `n` changes two pointers only: the previous node's, and,
   * when token `n` is a word, the last word node's; both point at node `n`.
   */
  lemma NextStep(cs: seq<int>, n: nat, k: nat)
    requires k < n < |cs|
    ensures Next(cs, n + 1, k) ==
      if k == n - 1 || (cs[n] == 0 && LastWordBefore(cs, n) == Some(k)) then Some(n)
      else Next(cs, n, k)
  {
    NextWordExtend(cs, n, k + 1);
    LastWordIsWordWithoutSuccessor(cs, n, k);
  }

  /** From an operator node with only operators after it, the walk visits them all. */
  lemma {:induction false} ChainOfOperators(cs: seq<int>, j: nat)
    requires j < |cs|
    requires forall p :: j <= p < |cs| ==> cs[p] != 0
    ensures Chain(cs, j) == Range(j, |cs|)
    decreases |cs| - j
  {
    if j + 1 < |cs| {
      ChainOfOperators(cs, j + 1);
    }
  }

  lemma {:induction false} WordIndicesSkipOperators(cs: seq<int>, j: nat, m: nat)
    requires j <= m
    requires forall p :: j <= p < m && p < |cs| ==> cs[p] != 0
    ensures WordIndicesFrom(cs, j) == WordIndicesFrom(cs, m)
    decreases m - j
  {
    if j < m && j < |cs| {
      WordIndicesSkipOperators(cs, j + 1, m);
    }
  }

  /**
   * From a word node the walk visits every later word in input order and
   * skips the operators between them, but still reaches the operators
   * after the last word, since the last word node keeps the pointer to the
   * node created after it.
   */
  lemma {:induction false} ChainFromWord(cs: seq<int>, k: nat)
    requires k < |cs| && cs[k] == 0
    ensures LastWordBefore(cs, |cs|).Some? && k <= LastWordBefore(cs, |cs|).value
    ensures Chain(cs, k) == WordIndicesFrom(cs, k) + Range(LastWordBefore(cs, |cs|).value + 1, |cs|)
    decreases |cs| - k
  {
    var last := LastWordBefore(cs, |cs|);
    LastWordIsWordWithoutSuccessor(cs, |cs|, k);
    match NextWord(cs, |cs|, k + 1)
    case Some(m) =>
      ChainFromWord(cs, m);
      WordIndicesSkipOperators(cs, k + 1, m);
      assert Chain(cs, k) == [k] + Chain(cs, m);
      assert WordIndicesFrom(cs, k) == [k] + WordIndicesFrom(cs, m);
    case None =>
      assert last == Some(k);
      WordIndicesSkipOperators(cs, k + 1, |cs|);
      if k + 1 < |cs| {
        ChainOfOperators(cs, k + 1);
        assert Chain(cs, k) == [k] + Range(k + 1, |cs|);
      } else {
        assert Chain(cs, k) == [k];
      }
      assert WordIndicesFrom(cs, k) == [k];
  }

  /** When the line ends with a word, the walk from a word visits exactly the words. */
  lemma ChainOfLineEndingInWord(cs: seq<int>, k: nat)
    requires k < |cs| && cs[k] == 0 && cs[|cs| - 1] == 0
    ensures Chain(cs, k) == WordIndicesFrom(cs, k)
  {
    ChainFromWord(cs, k);
    assert LastWordBefore(cs, |cs|) == Some(|cs| - 1);
  }

  /**
   * A word node's flag is the code of the latest `|`, `&`, `||` or `&&`
   * before it; a `;` in between changes nothing.
   */
  lemma {:induction false} RunningFlagIsLatestOperator(cs: seq<int>, n: nat, k: nat)
    requires k < n <= |cs|
    requires SetsRunningFlag(cs[k])
    requires forall p :: k < p < n ==> !SetsRunningFlag(cs[p])
    ensures RunningFlag(cs, n) == cs[k]
    decreases n - k
  {
    if n - 1 > k {
      RunningFlagIsLatestOperator(cs, n - 1, k);
    }
  }

  /** Before any `|`, `&`, `||` or `&&` the running flag is 0. */
  lemma {:induction false} RunningFlagWithoutOperator(cs: seq<int>, n: nat)
    requires n <= |cs|
    requires forall p :: 0 <= p < n ==> !SetsRunningFlag(cs[p])
    ensures RunningFlag(cs, n) == 0
  {
    if n > 0 {
      RunningFlagWithoutOperator(cs, n - 1);
    }
  }

  // ---------------------------------------------------------------------
  // The parser

  /** Where each of the nodes of the parsed tokens points, as `Next` says. */
  function NextPointers(cs: seq<int>, nodes: seq<Command>): (r: seq<Command?>)
    requires |nodes| <= |cs|
    ensures |r| == |nodes|
  {
    seq(|nodes|, k requires 0 <= k < |nodes| => NodeAt(nodes, Next(cs, |nodes|, k)))
  }

  /** One pointer of `NextPointersAppend`. */
  lemma NextPointerAppend(cs: seq<int>, nodes: seq<Command>, cmd: Command, k: nat)
    requires k < |nodes| < |cs|
    ensures NextPointers(cs, nodes + [cmd])[k] ==
      if k == |nodes| - 1 || (cs[|nodes|] == 0 && LastWordBefore(cs, |nodes|) == Some(k)) then cmd
      else NextPointers(cs, nodes)[k]
  {
    var i := |nodes|;
    var before := Next(cs, i, k);
    var after := Next(cs, i + 1, k);
    assert NextPointers(cs, nodes + [cmd])[k] == NodeAt(nodes + [cmd], after);
    assert NextPointers(cs, nodes)[k] == NodeAt(nodes, before);
    NextStep(cs, i, k);
    if k == i - 1 || (cs[i] == 0 && LastWordBefore(cs, i) == Some(k)) {
      assert after == Some(i);
    } else {
      assert after == before;
      assert NodeAt(nodes + [cmd], before) == NodeAt(nodes, before);
    }
  }

  /**
   * Parsing one more token: the previous node and, when the token is a
   * word, the last word node now point at the new node, which points
   * nowhere yet; every other pointer stays.
   */
  lemma NextPointersAppend(cs: seq<int>, nodes: seq<Command>, cmd: Command)
    requires |nodes| < |cs|
    ensures var i := |nodes|;
      var last := LastWordBefore(cs, i);
      var linked := if i > 0 then NextPointers(cs, nodes)[i - 1 := cmd] else NextPointers(cs, nodes);
      var relinked := if cs[i] == 0 && last.Some? then linked[last.value := cmd] else linked;
      NextPointers(cs, nodes + [cmd]) == relinked + [null]
  {
    var i := |nodes|;
    var nodes' := nodes + [cmd];
    var last := LastWordBefore(cs, i);
    var linked := if i > 0 then NextPointers(cs, nodes)[i - 1 := cmd] else NextPointers(cs, nodes);
    var relinked := if cs[i] == 0 && last.Some? then linked[last.value := cmd] else linked;
    forall k | 0 <= k < i
      ensures NextPointers(cs, nodes')[k] == relinked[k]
    {
      NextPointerAppend(cs, nodes, cmd, k);
    }
    assert Next(cs, i + 1, i).None?;
  }

  /**
   * parseCommandsFromWords. The first loop reports the first operator; the
   * second allocates one node per token, links it after the previous node,
   * and, for a word, also from the previous word node. `nodes` lists the
   * allocated nodes in token order.
   */
  method ParseCommandsFromWords(words: seq<string>, firstOperatorFlag: int)
    returns (head: Command?, firstFlag: int, ghost nodes: seq<Command>)
    ensures firstFlag == FirstOperatorFlag(words, firstOperatorFlag)
    ensures |nodes| == |words|
    ensures forall k :: 0 <= k < |nodes| ==> fresh(nodes[k])
    ensures forall a, b :: 0 <= a < b < |nodes| ==> nodes[a] != nodes[b]
    ensures head == if words == [] then null else nodes[0]
    ensures forall k :: 0 <= k < |nodes| ==>
      nodes[k].words == NodeWords(words, Codes(words), k) && nodes[k].flag == NodeFlag(Codes(words), k)
    ensures forall k :: 0 <= k < |nodes| ==> nodes[k].next == NextPointers(Codes(words), nodes)[k]
  {
    firstFlag := FindFirstOperator(words, firstOperatorFlag);

    ghost var cs := Codes(words);
    head := null;
    var current: Command? := null;
    var lastWordCommand: Command? := null;
    var currentFlag := 0;
    nodes := [];
    ghost var succ: seq<Command?> := [];
    ghost var index: map<Command, nat> := map[];
    for i := 0 to |words|
      invariant forall k :: 0 <= k < |nodes| ==> fresh(nodes[k])
      invariant Parsed(words, i, nodes, index, head, current, currentFlag, lastWordCommand, succ)
    {
      var cmd;
      head, cmd, currentFlag, lastWordCommand, succ := ParseToken(words, i, head, current, currentFlag, lastWordCommand, nodes, index, succ);
      current := cmd;
      nodes := nodes + [cmd];
      index := index[cmd := i];
    }
    forall a, b | 0 <= a < b < |nodes|
      ensures nodes[a] != nodes[b]
    {
      assert index[nodes[a]] != index[nodes[b]];
    }
  }

  /**
   * The node loop after `i` tokens: `nodes` are the nodes made so far,
   * `index` their positions, `succ` their `next` fields, and the loop's
   * variables are as the chain's specification says.
   */
  ghost predicate Parsed(words: seq<string>, i: nat, nodes: seq<Command>, index: map<Command, nat>,
                         head: Command?, current: Command?, currentFlag: int, lastWordCommand: Command?,
                         succ: seq<Command?>)
    reads nodes
  {
    var cs := Codes(words);
    i <= |words| && |nodes| == i &&
    (forall k :: 0 <= k < i ==> nodes[k] in index && index[nodes[k]] == k) &&
    head == (if i == 0 then null else nodes[0]) &&
    current == (if i == 0 then null else nodes[i - 1]) &&
    currentFlag == RunningFlag(cs, i) &&
    lastWordCommand == NodeAt(nodes, LastWordBefore(cs, i)) &&
    (forall k :: 0 <= k < i ==> nodes[k].words == NodeWords(words, cs, k) && nodes[k].flag == NodeFlag(cs, k)) &&
    succ == NextPointers(cs, nodes) &&
    (forall k {:trigger succ[k]} :: 0 <= k < i ==> nodes[k].next == succ[k])
  }

  /** One iteration of the node loop, on token `i`. */
  method ParseToken(words: seq<string>, i: nat, head: Command?, current: Command?, currentFlag: int,
                    lastWordCommand: Command?, ghost nodes: seq<Command>, ghost index: map<Command, nat>,
                    ghost succ: seq<Command?>)
    returns (head': Command?, cmd: Command, currentFlag': int, lastWordCommand': Command?, ghost succ': seq<Command?>)
    requires i < |words| && Parsed(words, i, nodes, index, head, current, currentFlag, lastWordCommand, succ)
    modifies current, lastWordCommand
    ensures fresh(cmd)
    ensures Parsed(words, i + 1, nodes + [cmd], index[cmd := i], head', cmd, currentFlag', lastWordCommand', succ')
  {
    ghost var cs := Codes(words);
    ghost var last := LastWordBefore(cs, i);
    ParseStep(words, i);
    head', cmd, currentFlag', lastWordCommand', succ' :=
      AppendNode(words[i], head, current, currentFlag, lastWordCommand, nodes, index, succ, last);
    NextPointersAppend(cs, nodes, cmd);
  }

  /** What token `i` contributes to the running flag, its node and the last word. */
  lemma ParseStep(words: seq<string>, i: nat)
    requires i < |words|
    ensures var cs, c := Codes(words), OperatorCode(words[i]);
      cs[i] == c &&
      RunningFlag(cs, i + 1) == (if SetsRunningFlag(c) then c else RunningFlag(cs, i)) &&
      NodeFlag(cs, i) == (if SetsRunningFlag(c) then c else if c != 0 then 0 else RunningFlag(cs, i)) &&
      NodeWords(words, cs, i) == (if c == 0 then [words[i]] else []) &&
      LastWordBefore(cs, i + 1) == (if c == 0 then Some(i) else LastWordBefore(cs, i))
  {
    CodeAt(words, i);
  }

  /**
   * The first loop of parseCommandsFromWords: the code of the first
   * operator token, or the incoming flag when the line has none.
   */
  method FindFirstOperator(words: seq<string>, firstOperatorFlag: int) returns (firstFlag: int)
    ensures firstFlag == FirstOperatorFlag(words, firstOperatorFlag)
  {
    ghost var cs := Codes(words);
    firstFlag := firstOperatorFlag;
    var i := 0;
    while i < |words|
      invariant 0 <= i <= |words|
      invariant FirstOperatorIndex(cs, i) == FirstOperatorIndex(cs, 0)
      invariant firstFlag == firstOperatorFlag
    {
      CodeAt(words, i);
      if words[i] == "|" {
        firstFlag := PipeFlag;
        break;
      } else if words[i] == "&" {
        firstFlag := BackgroundFlag;
        break;
      } else if words[i] == "||" {
        firstFlag := OrFlag;
        break;
      } else if words[i] == "&&" {
        firstFlag := AndFlag;
        break;
      } else if words[i] == ";" {
        firstFlag := SeqFlag;
        break;
      }
      i := i + 1;
    }
  }

  /**
   * One iteration of the node loop: a fresh node becomes the head or is
   * linked after the current node; a word node is also linked from the
   * previous word node and becomes the last word node. `nodes` are the
   * nodes made so far, `succ` their `next` fields before the step and
   * `succ'` those of `nodes + [cmd]` after it.
   */
  method AppendNode(token: string, head: Command?, current: Command?, currentFlag: int, lastWordCommand: Command?,
                    ghost nodes: seq<Command>, ghost index: map<Command, nat>, ghost succ: seq<Command?>,
                    ghost last: Option<nat>)
    returns (head': Command?, cmd: Command, currentFlag': int, lastWordCommand': Command?, ghost succ': seq<Command?>)
    requires |succ| == |nodes|
    requires forall k :: 0 <= k < |nodes| ==> nodes[k] in index && index[nodes[k]] == k
    requires forall k {:trigger succ[k]} :: 0 <= k < |nodes| ==> nodes[k].next == succ[k]
    requires head == null <==> nodes == []
    requires current == if nodes == [] then null else nodes[|nodes| - 1]
    requires last.Some? ==> last.value < |nodes|
    requires lastWordCommand == NodeAt(nodes, last)
    modifies current, lastWordCommand
    ensures fresh(cmd)
    ensures head' == if head == null then cmd else head
    ensures cmd.words == if OperatorCode(token) == 0 then [token] else []
    ensures cmd.flag == if SetsRunningFlag(OperatorCode(token)) then OperatorCode(token)
                        else if OperatorCode(token) != 0 then 0 else currentFlag
    ensures currentFlag' == if SetsRunningFlag(OperatorCode(token)) then OperatorCode(token) else currentFlag
    ensures lastWordCommand' == if OperatorCode(token) == 0 then cmd else lastWordCommand
    ensures var linked := if nodes != [] then succ[|nodes| - 1 := cmd] else succ;
      succ' == (if OperatorCode(token) == 0 && last.Some? then linked[last.value := cmd] else linked) + [null]
    ensures forall k {:trigger succ'[k]} :: 0 <= k <= |nodes| ==> (nodes + [cmd])[k].next == succ'[k]
  {
    var nodeWords, nodeFlag, isWord;
    nodeWords, nodeFlag, currentFlag', isWord := ClassifyToken(token, currentFlag);
    cmd := new Command(nodeWords, nodeFlag);
    head' := head;
    succ' := succ;
    if head == null {
      head' := cmd;
    } else {
      current.next := cmd;
      succ' := succ'[|nodes| - 1 := cmd];
    }
    lastWordCommand' := lastWordCommand;
    if isWord {
      if lastWordCommand != null {
        lastWordCommand.next := cmd;
        succ' := succ'[last.value := cmd];
      }
      lastWordCommand' := cmd;
    }
    succ' := succ' + [null];
    forall k | 0 <= k < |nodes|
      ensures nodes[k].next == succ'[k]
    {
      assert index[nodes[k]] == k;
      if nodes[k] != current && nodes[k] != lastWordCommand {
        assert nodes[k].next == old(nodes[k].next) == succ[k];
      }
    }
  }

  /**
   * The branch on the token in the node loop: `|`, `&`, `||` and `&&` set
   * the node's flag and the running flag; `;` sets neither, since
   * bash_func.c:179-180 compare where they evidently meant to assign; any
   * other token is a word, whose node gets `[token]` and the running flag.
   */
  method ClassifyToken(token: string, currentFlag: int)
    returns (nodeWords: seq<string>, nodeFlag: int, currentFlag': int, isWord: bool)
    ensures isWord <==> token !in {"|", "&", "||", "&&", ";"}
    ensures nodeWords == if isWord then [token] else []
    ensures token == ";" ==> nodeFlag == 0 && currentFlag' == currentFlag
    ensures isWord ==> nodeFlag == currentFlag && currentFlag' == currentFlag
    ensures !isWord && token != ";" ==> nodeFlag == currentFlag' == OperatorCode(token) != 0
  {
    nodeWords, nodeFlag, currentFlag', isWord := [], 0, currentFlag, false;
    if token == "|" {
      nodeFlag := PipeFlag;
      currentFlag' := PipeFlag;
    } else if token == "&" {
      nodeFlag := BackgroundFlag;
      currentFlag' := BackgroundFlag;
    } else if token == "||" {
      nodeFlag := OrFlag;
      currentFlag' := OrFlag;
    } else if token == "&&" {
      nodeFlag := AndFlag;
      currentFlag' := AndFlag;
    } else if token == ";" {
      // `cmd->flag == 5; currentFlag == 5;`: comparisons, so nothing changes
    } else {
      nodeWords := [token];
      nodeFlag := currentFlag;
      isWord := true;
    }
  }
}
