/**
 * The slug field of the club-creation form (components/CreateClubForm.tsx).
 *
 * The form holds three pieces of state: the club name, a custom slug and a
 * flag telling whether the user has typed the slug by hand. The slug it shows
 * and posts is the custom one in manual mode and the one generated from the
 * name otherwise. Editing the slug switches to manual mode for good; editing
 * the name clears the custom slug only in automatic mode.
 */
module ClubForm {
  import opened Wrappers
  import opened Slug

  /** A snapshot of the form's three state variables. */
  datatype FormState = FormState(clubName: string, customSlug: string, isSlugManual: bool) {

    /** The slug the form shows and submits. */
    function Slug(): string {
      if isSlugManual then customSlug else GenerateSlug(clubName)
    }

    /**
     * In automatic mode no custom slug is held. The source keeps this without
     * relying on it (`Slug` ignores the custom slug in automatic mode); it is
     * stated as a fact of the form, not as a precondition of any operation.
     */
    predicate Consistent() {
      !isSlugManual ==> customSlug == ""
    }
  }

  /** The state the form starts in: empty name, empty custom slug, automatic mode. */
  const Initial: FormState := FormState("", "", false)

  /** One change event on one of the two inputs, carrying the input's new text. */
  datatype Edit = NameEdited(value: string) | SlugEdited(value: string)

  /**
   * What the slug handler stores: the typed text lower-cased with each
   * whitespace run turned into one '-', and no other filtering.
   */
  function ManualSlug(input: string): (r: string)
    ensures |r| <= |input|
    ensures All(r, IsNotUpper) && All(r, IsNotSpace)
  {
    ReplaceRunsKeeps(Lower(input), IsSpace, '-', IsNotUpper);
    HyphenateSpaces(Lower(input))
  }

  /** The state after one event, as the two handlers leave it. */
  function Step(st: FormState, e: Edit): FormState {
    match e
    case NameEdited(v) =>
      FormState(v, if st.isSlugManual then st.customSlug else "", st.isSlugManual)
    case SlugEdited(v) =>
      FormState(st.clubName, ManualSlug(v), true)
  }

  /** The state after a sequence of events, oldest first. */
  function Replay(st: FormState, edits: seq<Edit>): FormState
    decreases |edits|
  {
    if edits == [] then st else Step(Replay(st, edits[..|edits| - 1]), edits[|edits| - 1])
  }

  /** The value of the most recent slug edit, if there was one. */
  function LastSlugEdit(edits: seq<Edit>): Option<string>
    decreases |edits|
  {
    if edits == [] then None
    else if edits[|edits| - 1].SlugEdited? then Some(edits[|edits| - 1].value)
    else LastSlugEdit(edits[..|edits| - 1])
  }

  /** The value of the most recent name edit, or the empty name. */
  function LastName(edits: seq<Edit>): string
    decreases |edits|
  {
    if edits == [] then ""
    else if edits[|edits| - 1].NameEdited? then edits[|edits| - 1].value
    else LastName(edits[..|edits| - 1])
  }

  // ---------------------------------------------------------------------------
  // Properties of the mode machine
  // ---------------------------------------------------------------------------

  /** Lower-casing keeps whitespace and non-whitespace apart. */
  lemma LowerKeepsSpaces(s: string)
    ensures forall i | 0 <= i < |s| :: IsSpace(Lower(s)[i]) <==> IsSpace(s[i])
  {
  }

  /**
   * The typed text is handled part by part: wherever the cut does not fall
   * inside a whitespace run, the stored slug is the two parts' slugs joined.
   */
  lemma ManualSlugAppend(a: string, b: string)
    requires a == [] || b == [] || !IsSpace(a[|a| - 1]) || !IsSpace(b[0])
    ensures ManualSlug(a + b) == ManualSlug(a) + ManualSlug(b)
  {
    LowerAppend(a, b);
    LowerKeepsSpaces(a);
    LowerKeepsSpaces(b);
    ReplaceRunsAppend(Lower(a), Lower(b), IsSpace, '-');
  }

  /** A typed whitespace run is stored as one '-'. */
  lemma ManualSlugOfRun(w: string)
    requires w != [] && All(w, IsSpace)
    ensures ManualSlug(w) == "-"
  {
    LowerOfLowerCase(w);
    ReplaceRunsOfRun(w, IsSpace, '-');
  }

  /** A typed character other than whitespace is stored lower-cased. */
  lemma ManualSlugOne(c: char)
    requires !IsSpace(c)
    ensures ManualSlug([c]) == [ToLowerChar(c)]
  {
    assert Lower([c]) == [ToLowerChar(c)];
    ReplaceRunsOfPlain(ToLowerChar(c), IsSpace, '-');
  }

  /**
   * A whitespace run between two parts that do not touch it is stored as one
   * '-' between the parts' own slugs.
   */
  lemma ManualSlugJoin(a: string, w: string, b: string)
    requires a == [] || !IsSpace(a[|a| - 1])
    requires w != [] && All(w, IsSpace)
    requires b == [] || !IsSpace(b[0])
    ensures ManualSlug(a + w + b) == ManualSlug(a) + "-" + ManualSlug(b)
  {
    ManualSlugAppend(w, b);
    assert (w + b)[0] == w[0];
    ManualSlugAppend(a, w + b);
    ManualSlugOfRun(w);
    Associative(a, w, b);
    Associative(ManualSlug(a), "-", ManualSlug(b));
  }

  /** Text already lower-case and free of whitespace is stored exactly as typed. */
  lemma ManualSlugFiltersNothingElse(input: string)
    requires All(input, IsNotUpper) && All(input, IsNotSpace)
    ensures ManualSlug(input) == input
  {
    LowerOfLowerCase(input);
    ReplaceRunsFixedPoint(input, IsSpace, '-');
  }

  /** So a hand-typed slug need not be a slug: punctuation and double hyphens stay. */
  lemma ManualSlugMayBeMalformed()
    ensures ManualSlug("5k--run!") == "5k--run!"
    ensures !IsSlug(ManualSlug("5k--run!"))
  {
    var typed := "5k--run!";
    assert All(typed, IsNotUpper) && All(typed, IsNotSpace);
    ManualSlugFiltersNothingElse(typed);
    assert typed[2] == '-' && typed[3] == '-';
  }

  /** Every step keeps "automatic mode holds no custom slug". */
  lemma {:induction false} ReplayKeepsConsistent(st: FormState, edits: seq<Edit>)
    requires st.Consistent()
    ensures Replay(st, edits).Consistent()
    decreases |edits|
  {
    if edits != [] {
      ReplayKeepsConsistent(st, edits[..|edits| - 1]);
    }
  }

  /**
   * Manual mode is one-way: after any events the form is in manual mode exactly
   * when it started in it or one of the events edited the slug.
   */
  lemma {:induction false} ManualModeIsOneWay(st: FormState, edits: seq<Edit>)
    ensures Replay(st, edits).isSlugManual
      <==> st.isSlugManual || exists i | 0 <= i < |edits| :: edits[i].SlugEdited?
    decreases |edits|
  {
    if edits != [] {
      var prefix := edits[..|edits| - 1];
      ManualModeIsOneWay(st, prefix);
      if exists i | 0 <= i < |prefix| :: prefix[i].SlugEdited? {
        var i :| 0 <= i < |prefix| && prefix[i].SlugEdited?;
        assert edits[i] == prefix[i];
      }
      if exists i | 0 <= i < |edits| :: edits[i].SlugEdited? {
        var i :| 0 <= i < |edits| && edits[i].SlugEdited?;
        if i < |prefix| {
          assert prefix[i] == edits[i];
        }
      }
    }
  }

  /** Once in manual mode, name edits leave the shown slug as it was. */
  lemma {:induction false} NameEditsKeepManualSlug(st: FormState, edits: seq<Edit>)
    requires st.isSlugManual
    requires forall i | 0 <= i < |edits| :: edits[i].NameEdited?
    ensures Replay(st, edits).isSlugManual
    ensures Replay(st, edits).Slug() == st.Slug()
    decreases |edits|
  {
    if edits != [] {
      NameEditsKeepManualSlug(st, edits[..|edits| - 1]);
    }
  }

  /**
   * From a fresh form, the three state variables are determined by the latest
   * edits alone: the name is the latest name typed, manual mode holds exactly
   * when a slug was typed, and the custom slug is the latest typed slug
   * normalised, or empty. So the shown slug is the latest typed slug if any,
   * and otherwise the slug generated from the latest name.
   */
  lemma {:induction false} ReplayFromInitial(edits: seq<Edit>)
    ensures Replay(Initial, edits).clubName == LastName(edits)
    ensures Replay(Initial, edits).isSlugManual == LastSlugEdit(edits).Some?
    ensures Replay(Initial, edits).customSlug
      == (if LastSlugEdit(edits).Some? then ManualSlug(LastSlugEdit(edits).value) else "")
    ensures Replay(Initial, edits).Slug()
      == (if LastSlugEdit(edits).Some? then ManualSlug(LastSlugEdit(edits).value)
          else GenerateSlug(LastName(edits)))
    decreases |edits|
  {
    if edits != [] {
      ReplayFromInitial(edits[..|edits| - 1]);
    }
  }

  // ---------------------------------------------------------------------------
  // The form component, with its state updated in place
  // ---------------------------------------------------------------------------

  class CreateClubForm {
    var clubName: string
    var customSlug: string
    var isSlugManual: bool

    /** The current values of the three state variables. */
    function State(): FormState
      reads this
    {
      FormState(clubName, customSlug, isSlugManual)
    }

    /**
     * The slug shown and submitted: the custom slug in manual mode, otherwise
     * the slug generated from the name, which is then always well formed.
     */
    function Slug(): (slug: string)
      reads this
      ensures isSlugManual ==> slug == customSlug
      ensures !isSlugManual ==> slug == GenerateSlug(clubName) && IsSlug(slug)
    {
      State().Slug()
    }

    /** A fresh form: empty name, empty custom slug, automatic mode. */
    constructor ()
      ensures State() == Initial && State().Consistent()
    {
      clubName := "";
      customSlug := "";
      isSlugManual := false;
    }

    /** The name input changed. */
    method HandleNameChange(value: string)
      modifies this
      ensures clubName == value
      ensures isSlugManual == old(isSlugManual)
      ensures customSlug == if old(isSlugManual) then old(customSlug) else ""
      ensures State() == Step(old(State()), NameEdited(value))
      ensures old(State()).Consistent() ==> State().Consistent()
    {
      clubName := value;
      if !isSlugManual {
        customSlug := "";
      }
    }

    /** The slug input changed. */
    method HandleSlugChange(value: string)
      modifies this
      ensures clubName == old(clubName)
      ensures isSlugManual
      ensures customSlug == ManualSlug(value)
      ensures State() == Step(old(State()), SlugEdited(value))
      ensures State().Consistent()
    {
      isSlugManual := true;
      customSlug := ManualSlug(value);
    }
  }
}
