/** Mutex groups of the planning task: sets of facts of which at most one
    holds. A group is read from the planning task file, between the magic words
    begin_mutex_group and end_mutex_group, as a count followed by that many
    (variable, value) pairs. The file is modelled as a list of tokens that a
    whitespace-separated stream yields: words and integers. */
module MutexGroups {
  import opened Wrappers

  datatype FactPair = FactPair(variable: int, value: int)

  /** A group as the parser leaves it: its facts, the direction it was
      detected in and whether exactly one of its facts must hold. */
  datatype MutexGroup = MutexGroup(facts: seq<FactPair>, detectedFw: bool, exactlyOne: bool)

  datatype Token = Word(word: string) | Int(n: int)

  const BeginMagic: string := "begin_mutex_group"
  const EndMagic: string := "end_mutex_group"

  /** The tokens spell a mutex group: the begin word, a count n that
      std::vector::reserve accepts (a negative count is out of range for
      it), n pairs of integers and the end word. */
  predicate WellFormed(tokens: seq<Token>) {
    && |tokens| >= 2
    && tokens[0] == Word(BeginMagic)
    && tokens[1].Int?
    && var n := tokens[1].n;
    && n >= 0
    && |tokens| >= 3 + 2 * n
    && (forall j :: 2 <= j < 2 + 2 * n ==> tokens[j].Int?)
    && tokens[2 + 2 * n] == Word(EndMagic)
  }

  /** The j-th fact written in well-formed tokens. */
  function FactAt(tokens: seq<Token>, j: int): FactPair
    requires WellFormed(tokens) && 0 <= j < tokens[1].n
  {
    FactPair(tokens[2 + 2 * j].n, tokens[3 + 2 * j].n)
  }

  /** The constructor MutexGroup(istream &): checks the begin word, reads the
      count and the pairs in order, then checks the end word. Any token out
      of place (a missing magic word, a word where a number is read, the end
      of the input) ends the read with None, where the planner stops with an
      error. On success it also returns how many tokens it consumed; the
      group is recorded as detected forwards and not exactly-one. */
  method Parse(tokens: seq<Token>) returns (r: Option<(MutexGroup, nat)>)
    ensures r.Some? <==> WellFormed(tokens)
    ensures r.Some? ==> var (g, used) := r.value;
      && |g.facts| == tokens[1].n
      && (forall j :: 0 <= j < |g.facts| ==> g.facts[j] == FactAt(tokens, j))
      && used == 3 + 2 * |g.facts|
      && g.detectedFw && !g.exactlyOne
  {
    if |tokens| < 2 || tokens[0] != Word(BeginMagic) || !tokens[1].Int? || tokens[1].n < 0 {
      return None;
    }
    var numFacts := tokens[1].n;
    var facts: seq<FactPair> := [];
    var pos := 2;
    for j := 0 to numFacts
      invariant pos == 2 + 2 * j <= |tokens|
      invariant |facts| == j
      invariant forall i :: 2 <= i < pos ==> i < |tokens| && tokens[i].Int?
      invariant forall i :: 0 <= i < j ==> facts[i] == FactPair(tokens[2 + 2 * i].n, tokens[3 + 2 * i].n)
    {
      if pos + 1 >= |tokens| || !tokens[pos].Int? || !tokens[pos + 1].Int? {
        return None;
      }
      facts := facts + [FactPair(tokens[pos].n, tokens[pos + 1].n)];
      pos := pos + 2;
    }
    if pos >= |tokens| || tokens[pos] != Word(EndMagic) {
      return None;
    }
    r := Some((MutexGroup(facts, true, false), pos + 1));
  }

  /** The tokens the planning task file holds for a group with these facts. */
  function Write(facts: seq<FactPair>): (t: seq<Token>)
    ensures |t| == 3 + 2 * |facts|
  {
    [Word(BeginMagic), Int(|facts|)] + Pairs(facts) + [Word(EndMagic)]
  }

  function Pairs(facts: seq<FactPair>): (t: seq<Token>)
    ensures |t| == 2 * |facts|
    ensures forall j :: 0 <= j < |facts| ==> t[2 * j] == Int(facts[j].variable) && t[2 * j + 1] == Int(facts[j].value)
    decreases |facts|
  {
    if facts == [] then []
    else
      var k := |facts| - 1;
      Pairs(facts[..k]) + [Int(facts[k].variable), Int(facts[k].value)]
  }

  /** Reading back what Write produces, followed by anything else, yields
      exactly the written facts in their order and consumes only them. */
  lemma {:induction false} ParseWrite(facts: seq<FactPair>, rest: seq<Token>)
    ensures WellFormed(Write(facts) + rest)
    ensures (Write(facts) + rest)[1].n == |facts|
    ensures forall j :: 0 <= j < |facts| ==> FactAt(Write(facts) + rest, j) == facts[j]
  {
    var t := Write(facts) + rest;
    var p := Pairs(facts);
    assert forall j :: 2 <= j < 2 + 2 * |facts| ==> t[j] == p[j - 2];
    forall j | 2 <= j < 2 + 2 * |facts|
      ensures t[j].Int?
    {
      var q := (j - 2) / 2;
      assert j - 2 == 2 * q || j - 2 == 2 * q + 1;
      assert p[2 * q] == Int(facts[q].variable) && p[2 * q + 1] == Int(facts[q].value);
    }
    assert t[2 + 2 * |facts|] == Word(EndMagic);
  }

  /** hasPair: a scan of the facts that stops at the first one equal to
      (var, val). A group without facts has none. */
  method HasPair(g: MutexGroup, variable: int, val: int) returns (found: bool)
    ensures found <==> FactPair(variable, val) in g.facts
    ensures g.facts == [] ==> !found
  {
    for i := 0 to |g.facts|
      invariant forall k :: 0 <= k < i ==> g.facts[k] != FactPair(variable, val)
    {
      if g.facts[i].variable == variable && g.facts[i].value == val {
        return true;
      }
    }
    return false;
  }
}
