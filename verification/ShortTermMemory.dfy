/**
 * The working context of one run: the user's request and a scratchpad kept within a size
 * budget by dropping the oldest entries first.
 */
module ShortTermMemory {
  import opened Wrappers

  datatype BudgetArgument = Absent | Boolean(b: bool) | NonNumeric | Number(value: real)

  datatype Error = InvalidBudget | NotInitialized | Unsatisfiable

  datatype Outcome = Done | Raised(error: Error)

  /** A positive number is accepted and truncated. */
  function ValidateBudget(argument: BudgetArgument): Result<int, Error>
  {
    match argument
    case Number(value) => if value <= 0.0 then Err(InvalidBudget) else Ok(value.Floor)
    case _ => Err(InvalidBudget)
  }

  type Size = string -> nat

  function Total(size: Size, entries: seq<string>): nat
  {
    if entries == [] then 0 else size(entries[0]) + Total(size, entries[1..])
  }

  predicate Fits(size: Size, request: string, budget: int, entries: seq<string>)
  {
    size(request) + Total(size, entries) <= budget
  }

  /** Drop from the front while anything is left and the total is over budget. */
  function Evicted(size: Size, request: string, budget: int, entries: seq<string>): seq<string>
  {
    if entries != [] && !Fits(size, request, budget, entries)
    then Evicted(size, request, budget, entries[1..])
    else entries
  }

  class Memory {
    const size: Size
    var initialized: bool
    var budget: int
    var userRequest: string
    var entries: seq<string>

    constructor (size: Size)
      ensures this.size == size && !initialized && entries == []
    {
      this.size := size;
      initialized, budget, userRequest, entries := false, 0, "", [];
    }

    /** A rejected budget leaves the memory as it was. */
    method InitShortTerm(request: string, argument: BudgetArgument) returns (r: Outcome)
      modifies this
      ensures ValidateBudget(argument).Err? ==>
        r == Raised(InvalidBudget) && unchanged(this)
      ensures ValidateBudget(argument).Ok? ==>
        r == Done && initialized && budget == ValidateBudget(argument).value && userRequest == request && entries == []
    {
      var valid := ValidateBudget(argument);
      if valid.Err? {
        return Raised(valid.error);
      }
      budget := valid.value;
      userRequest := request;
      entries := [];
      initialized := true;
      return Done;
    }

    /** The request stays whatever happens; the error comes after the eviction. */
    method AddShortTerm(entry: string) returns (r: Outcome)
      modifies this
      ensures !old(initialized) ==> r == Raised(NotInitialized) && unchanged(this)
      ensures old(initialized) ==>
        && initialized && budget == old(budget) && userRequest == old(userRequest)
        && entries == Evicted(size, userRequest, budget, old(entries) + [entry])
        && r == if size(userRequest) > budget then Raised(Unsatisfiable) else Done
    {
      if !initialized {
        return Raised(NotInitialized);
      }
      entries := entries + [entry];
      r := EnforceBudget();
    }

    method EnforceBudget() returns (r: Outcome)
      modifies this`entries
      ensures entries == Evicted(size, userRequest, budget, old(entries))
      ensures r == if size(userRequest) > budget then Raised(Unsatisfiable) else Done
    {
      var requestSize := size(userRequest);
      var total := TotalSize();
      while entries != [] && total > budget
        invariant total == requestSize + Total(size, entries)
        invariant Evicted(size, userRequest, budget, entries) == Evicted(size, userRequest, budget, old(entries))
        decreases |entries|
      {
        entries := entries[1..];
        total := TotalSize();
      }
      if entries == [] && requestSize > budget {
        return Raised(Unsatisfiable);
      }
      return Done;
    }

    method TotalSize() returns (total: nat)
      ensures total == size(userRequest) + Total(size, entries)
    {
      total := size(userRequest);
      for i := 0 to |entries|
        invariant total + Total(size, entries[i..]) == size(userRequest) + Total(size, entries)
      {
        total := total + size(entries[i]);
      }
    }
  }

  // ----- The retained entries, in terms of everything ever added -----

  /** The entries after adding `history` one by one. */
  function Replay(size: Size, request: string, budget: int, history: seq<string>): seq<string>
  {
    if history == [] then []
    else
      var n := |history| - 1;
      Evicted(size, request, budget, Replay(size, request, budget, history[..n]) + [history[n]])
  }

  /** `history[k..]` is the longest suffix that fits, or nothing when no suffix does. */
  ghost predicate LongestFrom(size: Size, request: string, budget: int, history: seq<string>, k: nat)
  {
    && k <= |history|
    && (k < |history| ==> Fits(size, request, budget, history[k..]))
    && forall j | 0 <= j < k :: !Fits(size, request, budget, history[j..])
  }

  lemma {:induction false} EvictedIsSuffix(size: Size, request: string, budget: int, entries: seq<string>)
    returns (k: nat)
    ensures k <= |entries| && LongestFrom(size, request, budget, entries, k)
    ensures Evicted(size, request, budget, entries) == entries[k..]
  {
    if entries == [] || Fits(size, request, budget, entries) {
      k := 0;
      assert entries[0..] == entries;
    } else {
      var rest := EvictedIsSuffix(size, request, budget, entries[1..]);
      k := rest + 1;
      assert entries[0..] == entries;
      forall j | 0 <= j < k ensures !Fits(size, request, budget, entries[j..]) {
        if j > 0 {
          assert entries[1..][j - 1..] == entries[j..];
        }
      }
      assert entries[1..][rest..] == entries[k..];
    }
  }

  lemma {:induction false} TotalConcat(size: Size, a: seq<string>, b: seq<string>)
    ensures Total(size, a + b) == Total(size, a) + Total(size, b)
  {
    if a == [] {
      assert a + b == b;
    } else {
      assert (a + b)[1..] == a[1..] + b;
      TotalConcat(size, a[1..], b);
    }
  }

  lemma StillTooLong(size: Size, request: string, budget: int, entries: seq<string>, last: string)
    requires !Fits(size, request, budget, entries)
    ensures !Fits(size, request, budget, entries + [last])
  {
    TotalConcat(size, entries, [last]);
  }

  /** What is retained is the longest suffix of all that was added that fits with the request. */
  lemma {:induction false} RetainsLongestSuffix(size: Size, request: string, budget: int, history: seq<string>)
    returns (k: nat)
    ensures k <= |history| && LongestFrom(size, request, budget, history, k)
    ensures Replay(size, request, budget, history) == history[k..]
  {
    hide LongestFrom, Evicted;
    if history == [] {
      k := EvictedIsSuffix(size, request, budget, []);
    } else {
      var n := |history| - 1;
      var before, last := history[..n], history[n];
      var j := RetainsLongestSuffix(size, request, budget, before);
      assert history == before + [last] && before[j..] + [last] == history[j..];
      var m := EvictedIsSuffix(size, request, budget, history[j..]);
      k := j + m;
      LongestSnoc(size, request, budget, before, last, j, m);
      assert history[j..][m..] == history[k..];
    }
  }

  /** Evicting after one more add starts from the suffix that was kept, and drops no less. */
  lemma LongestSnoc(size: Size, request: string, budget: int, before: seq<string>, last: string, j: nat, m: nat)
    requires LongestFrom(size, request, budget, before, j)
    requires LongestFrom(size, request, budget, (before + [last])[j..], m)
    ensures LongestFrom(size, request, budget, before + [last], j + m)
  {
    hide Fits;
    var history := before + [last];
    assert history[j..][m..] == history[j + m..];
    forall i | 0 <= i < j + m ensures !Fits(size, request, budget, history[i..]) {
      if i < j {
        assert history[i..] == before[i..] + [last];
        StillTooLong(size, request, budget, before[i..], last);
      } else {
        assert history[i..] == history[j..][i - j..];
      }
    }
  }

  /** After any adds the context is within budget, unless the request alone is not. */
  lemma WithinBudget(size: Size, request: string, budget: int, history: seq<string>)
    ensures var kept := Replay(size, request, budget, history);
      if size(request) <= budget then Fits(size, request, budget, kept) else kept == []
  {
    var k := RetainsLongestSuffix(size, request, budget, history);
  }

  /** Every entry counts, each for its own size. */
  lemma TotalExact(size: Size, before: seq<string>, entry: string, after: seq<string>)
    ensures Total(size, before + [entry] + after) == Total(size, before) + size(entry) + Total(size, after)
    ensures Total(size, []) == 0
  {
    TotalConcat(size, before, [entry]);
    TotalConcat(size, before + [entry], after);
  }

  /**
   * A budget is refused exactly when it is not a positive number; otherwise it is the greatest whole
   * number not above it, so a positive budget below one becomes none at all.
   */
  lemma BudgetExact(argument: BudgetArgument)
    ensures ValidateBudget(argument).Err? <==> !(argument.Number? && argument.value > 0.0)
    ensures ValidateBudget(argument).Err? ==> ValidateBudget(argument).error == InvalidBudget
    ensures argument.Number? && argument.value > 0.0 ==>
      var budget := ValidateBudget(argument).value;
      budget as real <= argument.value < (budget + 1) as real && (budget == 0 <==> argument.value < 1.0)
  {
  }
}
