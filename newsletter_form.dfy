/**
 * The profile part of the newsletter sign-up form: two checkbox lists
 * (interests and ways to help), each with an "Other" option that also shows
 * a free-text box, submitted as one hidden input per chosen entry.
 */
module NewsletterForm {

  const Other: string := "Other"

  predicate NoDuplicates(s: seq<string>) {
    forall i, j :: 0 <= i < j < |s| ==> s[i] != s[j]
  }

  /** `s.filter((i) => i !== x)`. */
  function Without(s: seq<string>, x: string): (r: seq<string>)
    ensures |r| <= |s|
    ensures x !in r
    ensures forall y :: y != x ==> (y in r <==> y in s)
  {
    if s == [] then []
    else (if s[0] == x then [] else [s[0]]) + Without(s[1..], x)
  }

  /** Filtering keeps a list free of duplicates. */
  lemma {:induction false} WithoutNoDuplicates(s: seq<string>, x: string)
    requires NoDuplicates(s)
    ensures NoDuplicates(Without(s, x))
  {
    if s != [] {
      assert NoDuplicates(s[1..]) by {
        assert forall i :: 0 <= i < |s[1..]| ==> s[1..][i] == s[i + 1];
      }
      WithoutNoDuplicates(s[1..], x);
      assert s[0] !in s[1..];
    }
  }

  /** `prev.includes(x) ? prev.filter((i) => i !== x) : [...prev, x]`. */
  function Toggled(s: seq<string>, x: string): (r: seq<string>)
    ensures x in r <==> x !in s
    ensures forall y :: y != x ==> (y in r <==> y in s)
  {
    if x in s then Without(s, x) else s + [x]
  }

  /** One checkbox list and its "Other" flag. */
  datatype Choices = Choices(selected: seq<string>, showOther: bool)

  /** A change handler (`handleInterestChange`, `handleHelpChange`). */
  function Toggle(c: Choices, option: string): (r: Choices)
    ensures option != Other ==> r.showOther == c.showOther
    ensures option == Other ==> r.showOther == !c.showOther
  {
    if option == Other then
      // the flag, not the list, decides whether "Other" is added or removed
      if !c.showOther then Choices(c.selected + [option], true)
      else Choices(Without(c.selected, option), false)
    else Choices(Toggled(c.selected, option), c.showOther)
  }

  /** No entry twice, and "Other" is chosen exactly when its text box shows. */
  ghost predicate ChoicesValid(c: Choices) {
    NoDuplicates(c.selected) && (Other in c.selected <==> c.showOther)
  }

  /**
   * A change keeps the lists valid and flips exactly the changed option:
   * it is chosen afterwards exactly when it was not chosen before.
   */
  lemma ToggleKeepsValid(c: Choices, option: string)
    requires ChoicesValid(c)
    ensures ChoicesValid(Toggle(c, option))
    ensures option in Toggle(c, option).selected <==> option !in c.selected
    ensures forall y :: y != option ==> (y in Toggle(c, option).selected <==> y in c.selected)
  {
    if option in c.selected {
      WithoutNoDuplicates(c.selected, option);
    } else {
      var s := c.selected + [option];
      assert forall i :: 0 <= i < |c.selected| ==> s[i] == c.selected[i] != option;
    }
  }

  /** Changing the same option twice restores what is chosen and the flag; the order may differ. */
  lemma ToggleTwiceRestores(c: Choices, option: string)
    requires ChoicesValid(c)
    ensures Toggle(Toggle(c, option), option).showOther == c.showOther
    ensures forall y :: y in Toggle(Toggle(c, option), option).selected <==> y in c.selected
  {
    ToggleKeepsValid(c, option);
    ToggleKeepsValid(Toggle(c, option), option);
  }

  /** A hidden form input. */
  datatype HiddenInput = HiddenInput(name: string, value: string)

  /** `list.map((v) => <input type="hidden" name={name} value={v} />)`. */
  function HiddenInputs(name: string, list: seq<string>): (r: seq<HiddenInput>)
    ensures |r| == |list|
  {
    seq(|list|, k requires 0 <= k < |list| => HiddenInput(name, list[k]))
  }

  /** `formData.getAll(name)`: the values of the inputs called `name`, in order. */
  function GetAll(inputs: seq<HiddenInput>, name: string): (r: seq<string>)
    ensures |r| <= |inputs|
  {
    if inputs == [] then []
    else (if inputs[0].name == name then [inputs[0].value] else []) + GetAll(inputs[1..], name)
  }

  lemma {:induction false} GetAllAppend(a: seq<HiddenInput>, b: seq<HiddenInput>, name: string)
    ensures GetAll(a + b, name) == GetAll(a, name) + GetAll(b, name)
    decreases |a|
  {
    if a != [] {
      GetAllAppend(a[1..], b, name);
      assert (a + b)[1..] == a[1..] + b;
    } else {
      assert a + b == b;
    }
  }

  lemma {:induction false} GetAllOwnInputs(name: string, other: string, list: seq<string>)
    ensures GetAll(HiddenInputs(name, list), name) == list
    ensures name != other ==> GetAll(HiddenInputs(other, list), name) == []
    decreases |list|
  {
    if list != [] {
      GetAllOwnInputs(name, other, list[1..]);
      assert HiddenInputs(name, list)[1..] == HiddenInputs(name, list[1..]);
      assert HiddenInputs(other, list)[1..] == HiddenInputs(other, list[1..]);
    }
  }

  /** The form state kept by the sign-up component. */
  class ProfileForm {
    var interests: seq<string>
    var helpPreferences: seq<string>
    var showOtherInterest: bool
    var showOtherHelp: bool

    ghost predicate Valid()
      reads this
    {
      ChoicesValid(Choices(interests, showOtherInterest))
      && ChoicesValid(Choices(helpPreferences, showOtherHelp))
    }

    /** Both lists start empty with their text boxes hidden. */
    constructor ()
      ensures interests == [] && helpPreferences == []
      ensures !showOtherInterest && !showOtherHelp
      ensures Valid()
    {
      interests := [];
      helpPreferences := [];
      showOtherInterest := false;
      showOtherHelp := false;
    }

    /** `handleInterestChange(interest)`: the help list is not touched. */
    method HandleInterestChange(interest: string)
      requires Valid()
      modifies this
      ensures Choices(interests, showOtherInterest) == Toggle(old(Choices(interests, showOtherInterest)), interest)
      ensures helpPreferences == old(helpPreferences) && showOtherHelp == old(showOtherHelp)
      ensures Valid()
    {
      ToggleKeepsValid(Choices(interests, showOtherInterest), interest);
      var c := Toggle(Choices(interests, showOtherInterest), interest);
      interests := c.selected;
      showOtherInterest := c.showOther;
    }

    /** `handleHelpChange(help)`: the interest list is not touched. */
    method HandleHelpChange(help: string)
      requires Valid()
      modifies this
      ensures Choices(helpPreferences, showOtherHelp) == Toggle(old(Choices(helpPreferences, showOtherHelp)), help)
      ensures interests == old(interests) && showOtherInterest == old(showOtherInterest)
      ensures Valid()
    {
      ToggleKeepsValid(Choices(helpPreferences, showOtherHelp), help);
      var c := Toggle(Choices(helpPreferences, showOtherHelp), help);
      helpPreferences := c.selected;
      showOtherHelp := c.showOther;
    }

    /** The hidden inputs the form renders: one per chosen entry of each list. */
    function Inputs(): (r: seq<HiddenInput>)
      reads this
      ensures |r| == |interests| + |helpPreferences|
    {
      HiddenInputs("interests", interests) + HiddenInputs("helpPreferences", helpPreferences)
    }

    /** The submitted form gives each list back under its own name, in order. */
    lemma SubmittedLists()
      ensures GetAll(Inputs(), "interests") == interests
      ensures GetAll(Inputs(), "helpPreferences") == helpPreferences
    {
      GetAllAppend(HiddenInputs("interests", interests), HiddenInputs("helpPreferences", helpPreferences), "interests");
      GetAllAppend(HiddenInputs("interests", interests), HiddenInputs("helpPreferences", helpPreferences), "helpPreferences");
      GetAllOwnInputs("interests", "helpPreferences", interests);
      GetAllOwnInputs("interests", "helpPreferences", helpPreferences);
      GetAllOwnInputs("helpPreferences", "interests", helpPreferences);
      GetAllOwnInputs("helpPreferences", "interests", interests);
    }
  }
}
