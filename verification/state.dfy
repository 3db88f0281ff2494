/** The health state of one simulated person (the `PersonState` enum). */
module State {
  import opened Wrappers

  /** The four variants, in declaration order. */
  datatype PersonState = Untouched | Infected | Recovered | Deceased

  /** The variants in the order they are declared, which is also the column order of a day table. */
  const Declared: seq<PersonState> := [Untouched, Infected, Recovered, Deceased]

  /** The value `auto()` assigns: 1 for the first declared variant, counting up. */
  function Value(s: PersonState): (v: nat)
    ensures 1 <= v <= |Declared|
    ensures Declared[v - 1] == s
  {
    match s
    case Untouched => 1
    case Infected => 2
    case Recovered => 3
    case Deceased => 4
  }

  /** `PersonState(v)`: the variant whose value is `v`, or a miss (Python raises `ValueError`). */
  function FromValue(v: int): (r: Option<PersonState>)
    ensures r.Some? <==> 1 <= v <= |Declared|
    ensures r.Some? ==> Value(r.value) == v
  {
    if 1 <= v <= |Declared| then Some(Declared[v - 1]) else None
  }

  /** `auto()` numbers the variants consecutively from 1 in declaration order, so they are distinct. */
  lemma ValuesFollowDeclarationOrder()
    ensures forall i :: 0 <= i < |Declared| ==> Value(Declared[i]) == i + 1
    ensures forall i, j :: 0 <= i < j < |Declared| ==> Value(Declared[i]) < Value(Declared[j])
    ensures forall s, t :: Value(s) == Value(t) ==> s == t
  {
  }

  /** Looking a variant up by its value gives the variant back. */
  lemma ValueRoundTrip(s: PersonState)
    ensures FromValue(Value(s)) == Some(s)
  {
  }

  /** `PersonState.all()`: the set of every variant. */
  function All(): (r: set<PersonState>)
    ensures forall i :: 0 <= i < |Declared| ==> Declared[i] in r
    ensures |r| == 4
  {
    {Untouched, Infected, Recovered, Deceased}
  }

  /** The declared list names each variant exactly once, so the enum has exactly four members. */
  lemma DeclaredIsExhaustive()
    ensures |Declared| == |All()| == 4
    ensures forall s: PersonState :: s in Declared && s in All()
    ensures forall i, j :: 0 <= i < j < |Declared| ==> Declared[i] != Declared[j]
  {
    forall s: PersonState ensures s in Declared && s in All() {
      assert Declared[Value(s) - 1] == s;
    }
  }

  /** `str(state)`, which the day table uses as its column label before pivoting. */
  function Label(s: PersonState): string
  {
    match s
    case Untouched => "PersonState.untouched"
    case Infected => "PersonState.infected"
    case Recovered => "PersonState.recovered"
    case Deceased => "PersonState.deceased"
  }

  /** The rename that turns a column label back into a state; any other label is a miss. */
  function FromLabel(name: string): (r: Option<PersonState>)
    ensures r.Some? ==> Label(r.value) == name
    ensures forall s :: Label(s) == name ==> r == Some(s)
  {
    if name == "PersonState.untouched" then Some(Untouched)
    else if name == "PersonState.infected" then Some(Infected)
    else if name == "PersonState.recovered" then Some(Recovered)
    else if name == "PersonState.deceased" then Some(Deceased)
    else None
  }

  /** Mapping the state column to strings and renaming it back loses nothing: labels are distinct. */
  lemma LabelRoundTrip(s: PersonState)
    ensures FromLabel(Label(s)) == Some(s)
    ensures forall t :: Label(t) == Label(s) ==> t == s
  {
  }
}
