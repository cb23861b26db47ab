/** getEtcdServer: choosing a live discovery endpoint from the configured list. */
module Discovery {
  import opened Wrappers
  import opened Text
  import opened World

  predicate Answers(env: Env, candidate: string)
  {
    Probe(env, candidate).None?
  }

  /** The index of the first candidate whose probe completes without a transport error. */
  function FirstAnswering(env: Env, candidates: seq<string>): (r: Option<nat>)
    ensures r.Some? ==> r.value < |candidates| && Answers(env, candidates[r.value])
    ensures r.Some? ==> forall j :: 0 <= j < r.value ==> !Answers(env, candidates[j])
    ensures r.None? ==> forall j :: 0 <= j < |candidates| ==> !Answers(env, candidates[j])
    decreases |candidates|
  {
    if candidates == [] then None
    else if Answers(env, candidates[0]) then Some(0)
    else match FirstAnswering(env, candidates[1..])
      case None => None
      case Some(i) => Some(i + 1)
  }

  /** The first answering candidate is the one no earlier candidate precedes. */
  lemma FirstAnsweringAt(env: Env, candidates: seq<string>, i: nat)
    requires i < |candidates| && Answers(env, candidates[i])
    requires forall j :: 0 <= j < i ==> !Answers(env, candidates[j])
    ensures FirstAnswering(env, candidates) == Some(i)
  {
    // Follows from the characterisation in FirstAnswering's contract.
  }

  /** The endpoint getEtcdServer settles on; "" when no candidate answers. */
  function Chosen(env: Env, discoveryService: string): string
  {
    var candidates := Split(discoveryService, ',');
    match FirstAnswering(env, candidates)
    case Some(i) => candidates[i]
    case None => ""
  }

  /** getEtcdServer: probes the comma-separated candidates in order and returns the
      first that answers, after `probes` probes. The loop's `err` shadows the named
      result, so the returned error is always nil. */
  method GetEtcdServer(env: Env, discoveryService: string)
    returns (server: string, err: Option<string>, probes: nat)
    ensures err == None
    ensures var candidates := Split(discoveryService, ',');
      match FirstAnswering(env, candidates)
      case Some(i) => server == candidates[i] && probes == i + 1
      case None => server == "" && probes == |candidates|
  {
    var candidates := Split(discoveryService, ',');
    probes := 0;
    while probes < |candidates|
      invariant probes <= |candidates|
      invariant forall j :: 0 <= j < probes ==> !Answers(env, candidates[j])
    {
      var candidate := candidates[probes];
      probes := probes + 1;
      if Answers(env, candidate) {
        FirstAnsweringAt(env, candidates, probes - 1);
        return candidate, None, probes;
      }
    }
    assert FirstAnswering(env, candidates).None?;
    return "", None, probes;
  }
}
