/**
 * Configuration discovery: the pipeline of `DbContextExtension.ApplyAllConfigurations`.
 *
 * The types of the context's assembly are visited in order. A type is a
 * candidate when one of its interfaces has the simple name
 * "IEntityTypeConfiguration`1" (ordinal comparison, namespace ignored); the
 * first such interface is used. Its generic argument 0 is the entity type
 * configured; the candidate is then default-constructed and applied. The
 * pipeline is lazy and is forced element by element, so the candidates before
 * a failing one have already been applied when the failure aborts the call.
 */
module Discovery {
  import opened Common

  /** The simple name reflection gives the generic configuration interface. */
  const ConfigurationInterfaceName: string := "IEntityTypeConfiguration`1"

  /** An interface a type implements: its simple name and its generic arguments. */
  datatype InterfaceRef = InterfaceRef(name: string, genericArguments: seq<TypeName>)

  /** A type found in the assembly. */
  datatype TypeDescriptor = TypeDescriptor(name: TypeName, interfaces: seq<InterfaceRef>, hasDefaultConstructor: bool)

  /** One `ApplyConfiguration<target>(new config())` call. */
  datatype Application = Application(target: TypeName, configuration: TypeName)

  /** Why the pipeline stopped, naming the configuration type at fault. */
  datatype DiscoveryError =
    | MissingGenericArgument(configuration: TypeName)   // GetGenericArguments()[0] out of range
    | NoDefaultConstructor(configuration: TypeName)     // Activator.CreateInstance fails

  /** The applications made, in order, and the error that stopped the pipeline, if any. */
  datatype Discovery = Discovery(applied: seq<Application>, failure: Option<DiscoveryError>)

  /** The position of the first configuration interface in `interfaces` (`FirstOrDefault`). */
  function FirstConfigurationInterface(interfaces: seq<InterfaceRef>): (r: Option<nat>)
    ensures r.None? <==> forall k :: 0 <= k < |interfaces| ==> interfaces[k].name != ConfigurationInterfaceName
    ensures r.Some? ==> r.value < |interfaces| && interfaces[r.value].name == ConfigurationInterfaceName
    ensures r.Some? ==> forall k :: 0 <= k < r.value ==> interfaces[k].name != ConfigurationInterfaceName
  {
    if interfaces == [] then None
    else if interfaces[0].name == ConfigurationInterfaceName then Some(0)
    else match FirstConfigurationInterface(interfaces[1..])
      case None => None
      case Some(k) => Some(k + 1)
  }

  /** Whether `t` passes the `Where(it => it.i != null)` step. */
  predicate IsCandidate(t: TypeDescriptor)
  {
    FirstConfigurationInterface(t.interfaces).Some?
  }

  /** What the pipeline does with one type. */
  datatype Step = Skip | Apply(application: Application) | Fail(error: DiscoveryError)

  /** The generic arguments of a candidate's first configuration interface. */
  function ConfigurationArguments(t: TypeDescriptor): seq<TypeName>
    requires IsCandidate(t)
  {
    t.interfaces[FirstConfigurationInterface(t.interfaces).value].genericArguments
  }

  function StepOf(t: TypeDescriptor): (r: Step)
    ensures r.Skip? <==> !IsCandidate(t)
    ensures r.Fail? ==> r.error.configuration == t.name
    ensures IsCandidate(t) && !t.hasDefaultConstructor ==> r.Fail?
    ensures r.Apply? ==> r.application.configuration == t.name && t.hasDefaultConstructor
    ensures IsCandidate(t) && |ConfigurationArguments(t)| == 0 ==> r == Fail(MissingGenericArgument(t.name))
    ensures IsCandidate(t) && |ConfigurationArguments(t)| > 0 && !t.hasDefaultConstructor ==>
              r == Fail(NoDefaultConstructor(t.name))
    ensures IsCandidate(t) && |ConfigurationArguments(t)| > 0 && t.hasDefaultConstructor ==> r.Apply?
  {
    match FirstConfigurationInterface(t.interfaces)
    case None => Skip
    case Some(k) =>
      var arguments := t.interfaces[k].genericArguments;
      if |arguments| == 0 then Fail(MissingGenericArgument(t.name))
      else if !t.hasDefaultConstructor then Fail(NoDefaultConstructor(t.name))
      else Apply(Application(arguments[0], t.name))
  }

  /** The whole pipeline over the assembly's types, in order. */
  function Discover(types: seq<TypeDescriptor>): (r: Discovery)
    ensures |r.applied| <= |types|
    ensures r.failure.Some? ==> |r.applied| < |types|
  {
    if types == [] then Discovery([], None)
    else match StepOf(types[0])
      case Skip => Discover(types[1..])
      case Fail(e) => Discovery([], Some(e))
      case Apply(a) =>
        var rest := Discover(types[1..]);
        Discovery([a] + rest.applied, rest.failure)
  }

  /**
   * The candidates among `types`. The result keeps the input's order and its
   * repeats: it is an order-preserving filter.
   */
  function Candidates(types: seq<TypeDescriptor>): (r: seq<TypeDescriptor>)
    ensures forall t :: t in r <==> t in types && IsCandidate(t)
  {
    if types == [] then []
    else if IsCandidate(types[0]) then [types[0]] + Candidates(types[1..])
    else Candidates(types[1..])
  }

  /** A candidate that can be bound and constructed. */
  predicate Applicable(t: TypeDescriptor)
  {
    StepOf(t).Apply?
  }

  /**
   * The application a candidate yields: generic argument 0 of its FIRST
   * configuration interface (`FirstOrDefault`), and the candidate itself.
   */
  function Binding(t: TypeDescriptor): (a: Application)
    requires Applicable(t)
    ensures a.configuration == t.name
    ensures FirstConfigurationInterface(t.interfaces).Some?
    ensures var k := FirstConfigurationInterface(t.interfaces).value;
      |t.interfaces[k].genericArguments| > 0 && a.target == t.interfaces[k].genericArguments[0]
  {
    StepOf(t).application
  }

  /** Types that are not candidates play no part: discovery over the candidates alone is the same. */
  lemma {:induction false} OnlyCandidatesMatter(types: seq<TypeDescriptor>)
    ensures Discover(types) == Discover(Candidates(types))
  {
    if types != [] {
      OnlyCandidatesMatter(types[1..]);
      if IsCandidate(types[0]) {
        assert Candidates(types)[1..] == Candidates(types[1..]);
      }
    }
  }

  /** An assembly without candidates applies nothing and does not fail. */
  lemma {:induction false} NoCandidatesAppliesNothing(types: seq<TypeDescriptor>)
    requires forall t :: t in types ==> !IsCandidate(t)
    ensures Discover(types) == Discovery([], None)
  {
    if types != [] {
      assert types[0] in types;
      assert forall t :: t in types[1..] ==> t in types;
      NoCandidatesAppliesNothing(types[1..]);
    }
  }

  /** Discovery succeeds exactly when every candidate can be bound and constructed. */
  lemma {:induction false} SuccessIffEveryCandidateApplicable(types: seq<TypeDescriptor>)
    ensures Discover(types).failure.None? <==> forall t :: t in Candidates(types) ==> Applicable(t)
  {
    if types != [] {
      SuccessIffEveryCandidateApplicable(types[1..]);
      if IsCandidate(types[0]) {
        assert Candidates(types) == [types[0]] + Candidates(types[1..]);
      }
    }
  }

  /** A successful discovery applies one configuration per candidate, in order. */
  lemma {:induction false} SuccessAppliesInOrder(types: seq<TypeDescriptor>)
    requires Discover(types).failure.None?
    ensures |Discover(types).applied| == |Candidates(types)|
    ensures forall i :: 0 <= i < |Candidates(types)| ==>
              Applicable(Candidates(types)[i]) && Discover(types).applied[i] == Binding(Candidates(types)[i])
  {
    if types != [] {
      var t, cs, rest := types[0], Candidates(types), Candidates(types[1..]);
      if !IsCandidate(t) {
        SuccessAppliesInOrder(types[1..]);
      } else {
        var d, d' := Discover(types), Discover(types[1..]);
        assert StepOf(t).Apply?;
        assert d.applied == [Binding(t)] + d'.applied && d.failure == d'.failure;
        SuccessAppliesInOrder(types[1..]);
        BindingsOfPrepended(t, rest, d'.applied);
      }
    }
  }

  /** Prepending an applicable candidate and its binding keeps the two sequences matched. */
  lemma BindingsOfPrepended(t: TypeDescriptor, rest: seq<TypeDescriptor>, applied: seq<Application>)
    requires Applicable(t)
    requires |applied| == |rest|
    requires forall i :: 0 <= i < |rest| ==> Applicable(rest[i]) && applied[i] == Binding(rest[i])
    ensures forall i :: 0 <= i < |rest| + 1 ==>
              Applicable(([t] + rest)[i]) && ([Binding(t)] + applied)[i] == Binding(([t] + rest)[i])
  {
    forall i | 0 <= i < |rest| + 1
      ensures Applicable(([t] + rest)[i]) && ([Binding(t)] + applied)[i] == Binding(([t] + rest)[i])
    {
      if i > 0 {
        assert ([t] + rest)[i] == rest[i - 1];
      }
    }
  }

  /**
   * Discovery succeeds exactly when every candidate can be bound and
   * constructed, and then applies one configuration per candidate, in order.
   */
  lemma SuccessAppliesEveryCandidate(types: seq<TypeDescriptor>)
    ensures Discover(types).failure.None? <==> forall t :: t in Candidates(types) ==> Applicable(t)
    ensures Discover(types).failure.None? ==>
              |Discover(types).applied| == |Candidates(types)| &&
              forall i :: 0 <= i < |Candidates(types)| ==>
                Applicable(Candidates(types)[i]) && Discover(types).applied[i] == Binding(Candidates(types)[i])
  {
    SuccessIffEveryCandidateApplicable(types);
    if Discover(types).failure.None? {
      SuccessAppliesInOrder(types);
    }
  }

  /**
   * Outcome `d` over candidates `cs` stopped at candidate `j`: candidate `j`
   * cannot be bound or constructed and gave the reported error, and exactly
   * the candidates before it were applied, in order.
   */
  ghost predicate StoppedAt(d: Discovery, cs: seq<TypeDescriptor>, j: nat)
  {
    && d.failure.Some?
    && j < |cs|
    && StepOf(cs[j]) == Fail(d.failure.value)
    && |d.applied| == j
    && forall i :: 0 <= i < j ==> Applicable(cs[i]) && d.applied[i] == Binding(cs[i])
  }

  /** A failure names the first candidate that cannot be bound or constructed. */
  lemma {:induction false} FailureNamesFirstBadCandidate(types: seq<TypeDescriptor>)
    requires Discover(types).failure.Some?
    ensures exists j :: StoppedAt(Discover(types), Candidates(types), j)
  {
    var t := types[0];
    var tail := Candidates(types[1..]);
    var rest := Discover(types[1..]);
    match StepOf(t)
    case Skip =>
      FailureNamesFirstBadCandidate(types[1..]);
      assert Candidates(types) == tail && Discover(types) == rest;
    case Fail(e) =>
      assert Candidates(types)[0] == t;
      assert StoppedAt(Discover(types), Candidates(types), 0);
    case Apply(a) =>
      FailureNamesFirstBadCandidate(types[1..]);
      var j: nat :| StoppedAt(rest, tail, j);
      assert Candidates(types) == [t] + tail;
      assert Discover(types) == Discovery([a] + rest.applied, rest.failure);
      StoppedAfterApplied(rest, tail, t, j);
  }

  /** Putting an applied candidate in front of an outcome that stopped at `j` gives one that stopped at `j + 1`. */
  lemma StoppedAfterApplied(rest: Discovery, tail: seq<TypeDescriptor>, t: TypeDescriptor, j: nat)
    requires Applicable(t) && StoppedAt(rest, tail, j)
    ensures StoppedAt(Discovery([Binding(t)] + rest.applied, rest.failure), [t] + tail, j + 1)
  {
    var cs := [t] + tail;
    var applied := [Binding(t)] + rest.applied;
    forall i | 0 <= i < j + 1
      ensures Applicable(cs[i]) && applied[i] == Binding(cs[i])
    {
      if i > 0 {
        assert cs[i] == tail[i - 1] && applied[i] == rest.applied[i - 1];
      }
    }
  }

  /** A candidate with no default constructor is never skipped silently: discovery fails. */
  lemma UnconstructibleCandidateFails(types: seq<TypeDescriptor>, t: TypeDescriptor)
    requires t in types && IsCandidate(t) && !t.hasDefaultConstructor
    ensures Discover(types).failure.Some?
  {
    SuccessAppliesEveryCandidate(types);
  }
}
