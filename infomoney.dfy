/**
 * The finance-page scraper, `InfoMoneyHTMLParser`: a three-state machine fed
 * one text node at a time. It arms on the first text node exactly equal to
 * the label "Variação (Dia)" and captures, stripped, the first later text
 * node whose stripped form ends with `%`; after that it never arms again.
 * The HTML tokeniser is not modelled: the input is the sequence of text
 * nodes it would report.
 */
module InfoMoney {
  import opened Wrappers
  import opened Text

  const Label: string := "Variação (Dia)"

  /** The parser's private `__grab` flag: Python's None, True and False. */
  datatype Grab = Unset | Armed | Disarmed

  datatype Scan = Scan(grab: Grab, dailyChange: Option<string>)

  const Initial: Scan := Scan(Unset, None)

  /** The node a capture takes: its stripped form ends with `%`. */
  predicate IsPercent(data: string) {
    EndsWith(Strip(data), '%')
  }

  /** One call of `handle_data`: the capture test first, the label test second. */
  function Step(st: Scan, data: string): Scan
  {
    var st' := if st.grab == Armed && IsPercent(data)
               then Scan(Disarmed, Some(Strip(data))) else st;
    if data == Label && st'.grab == Unset then st'.(grab := Armed) else st'
  }

  /** `handle_data` over a whole sequence of text nodes, in order. */
  function Run(st: Scan, nodes: seq<string>): Scan
    decreases |nodes|
  {
    if nodes == [] then st else Run(Step(st, nodes[0]), nodes[1..])
  }

  /** A state the parser can be in: it holds a value exactly when it has
      disarmed. */
  predicate Consistent(st: Scan) {
    st.dailyChange.Some? <==> st.grab == Disarmed
  }

  /** The position of the first node exactly equal to the label. */
  function FirstLabel(nodes: seq<string>): (r: Option<nat>)
    ensures r.Some? ==> r.value < |nodes| && nodes[r.value] == Label
    ensures r.Some? ==> forall k :: 0 <= k < r.value ==> nodes[k] != Label
    ensures r.None? ==> forall k :: 0 <= k < |nodes| ==> nodes[k] != Label
  {
    if nodes == [] then None
    else if nodes[0] == Label then Some(0)
    else match FirstLabel(nodes[1..])
      case None => None
      case Some(i) => Some(i + 1)
  }

  /** The position of the first node whose stripped form ends with `%`. */
  function FirstPercent(nodes: seq<string>): (r: Option<nat>)
    ensures r.Some? ==> r.value < |nodes| && IsPercent(nodes[r.value])
    ensures r.Some? ==> forall k :: 0 <= k < r.value ==> !IsPercent(nodes[k])
    ensures r.None? ==> forall k :: 0 <= k < |nodes| ==> !IsPercent(nodes[k])
  {
    if nodes == [] then None
    else if IsPercent(nodes[0]) then Some(0)
    else
      var rest := nodes[1..];
      assert forall k :: 0 <= k < |rest| ==> rest[k] == nodes[k + 1];
      match FirstPercent(rest)
      case None => None
      case Some(i) => Some(i + 1)
  }

  /** What the scraper should return: the stripped text of the first
      `%`-suffixed node after the first label node, if there is one. */
  function DailyChange(nodes: seq<string>): Option<string>
  {
    match FirstLabel(nodes)
    case None => None
    case Some(i) =>
      match FirstPercent(nodes[i + 1..])
      case None => None
      case Some(j) => Some(Strip(nodes[i + 1 + j]))
  }

  /** Once a value is captured the machine is finished: no later node, label
      or percentage, changes the flag or the value. */
  lemma {:induction false} CapturedIsFinal(st: Scan, nodes: seq<string>)
    requires st.grab == Disarmed
    ensures Run(st, nodes) == st
    decreases |nodes|
  {
    if nodes != [] {
      CapturedIsFinal(Step(st, nodes[0]), nodes[1..]);
    }
  }

  /** An armed machine with nothing captured takes the first `%` node. */
  lemma {:induction false} RunArmed(nodes: seq<string>)
    ensures Run(Scan(Armed, None), nodes) ==
      match FirstPercent(nodes)
      case None => Scan(Armed, None)
      case Some(j) => Scan(Disarmed, Some(Strip(nodes[j])))
  {
    if nodes != [] {
      var st := Step(Scan(Armed, None), nodes[0]);
      if IsPercent(nodes[0]) {
        CapturedIsFinal(st, nodes[1..]);
      } else {
        RunArmed(nodes[1..]);
        assert forall k :: 0 <= k < |nodes| - 1 ==> nodes[1..][k] == nodes[k + 1];
      }
    }
  }

  /** From a fresh parser, the machine computes `DailyChange`. */
  lemma {:induction false} RunFromInitial(nodes: seq<string>)
    ensures Run(Initial, nodes).dailyChange == DailyChange(nodes)
  {
    if nodes != [] {
      if nodes[0] == Label {
        RunArmed(nodes[1..]);
      } else {
        RunFromInitial(nodes[1..]);
        assert forall k :: 0 <= k < |nodes| - 1 ==> nodes[1..][k] == nodes[k + 1];
        match FirstLabel(nodes[1..])
        case None =>
        case Some(i) =>
          assert nodes[i + 2..] == nodes[1..][i + 1..];
      }
    }
  }

  /** Every reachable state is consistent. */
  lemma {:induction false} RunConsistent(st: Scan, nodes: seq<string>)
    requires Consistent(st)
    ensures Consistent(Run(st, nodes))
    decreases |nodes|
  {
    if nodes != [] {
      RunConsistent(Step(st, nodes[0]), nodes[1..]);
    }
  }

  /** Feeding in two parts is feeding the whole. */
  lemma {:induction false} RunAppend(st: Scan, a: seq<string>, b: seq<string>)
    ensures Run(st, a + b) == Run(Run(st, a), b)
    decreases |a|
  {
    if a != [] {
      assert (a + b)[1..] == a[1..] + b;
      RunAppend(Step(st, a[0]), a[1..], b);
    } else {
      assert a + b == b;
    }
  }

  /** `InfoMoneyHTMLParser`: the captured value and the private flag. */
  class Parser {
    var dailyChange: Option<string>
    var grab: Grab

    function State(): Scan
      reads this
    {
      Scan(grab, dailyChange)
    }

    constructor ()
      ensures State() == Initial
    {
      dailyChange := None;
      grab := Unset;
    }

    /** `handle_data`. */
    method HandleData(data: string)
      modifies this
      ensures State() == Step(old(State()), data)
    {
      if grab == Armed && EndsWith(Strip(data), '%') {
        dailyChange := Some(Strip(data));
        grab := Disarmed;
      }
      if data == Label && grab == Unset {
        grab := Armed;
      }
    }

    /** `feed`, reduced to the text nodes it reports to `handle_data`. */
    method Feed(nodes: seq<string>)
      modifies this
      ensures State() == Run(old(State()), nodes)
    {
      for i := 0 to |nodes|
        invariant State() == Run(old(State()), nodes[..i])
      {
        HandleData(nodes[i]);
        RunAppend(old(State()), nodes[..i], [nodes[i]]);
        assert nodes[..i + 1] == nodes[..i] + [nodes[i]];
      }
      assert nodes[..|nodes|] == nodes;
    }
  }

  /** `get_ibovespa_change` after the download: a fresh parser fed the page's
      text nodes, returning its `daily_change`. */
  method IbovespaChange(nodes: seq<string>) returns (change: Option<string>)
    ensures change == DailyChange(nodes)
  {
    var parser := new Parser();
    parser.Feed(nodes);
    RunFromInitial(nodes);
    change := parser.dailyChange;
  }
}
