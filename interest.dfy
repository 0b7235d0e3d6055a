/**
 * The interest categories of the lead-capture form: `isValidInterest`, the
 * three category keys, and `formatChoiceLabel`, which turns a key into the
 * label written to the submissions log.
 */
module Interest {
  import opened Wrappers

  /** The three categories a visitor can pick. */
  datatype Category = Influencer | Need | Curious {
    /** The key the form sends. */
    function Key(): string {
      match this
      case Influencer => "influencer"
      case Need => "need"
      case Curious => "curious"
    }

    /** The label the log records. */
    function Label(): string {
      match this
      case Influencer => "Influencer"
      case Need => "Need"
      case Curious => "Curious"
    }
  }

  /** The keys in the order the source lists them. */
  const InterestKeys: seq<string> := ["influencer", "need", "curious"]

  /** `isValidInterest`: membership in the list of keys. */
  predicate IsValidInterest(interest: string) {
    interest in InterestKeys
  }

  /** `formatChoiceLabel`: the label of `influencer` and of `need`, and
      `Curious` for every other string. */
  function FormatChoiceLabel(interest: string): (shown: string)
    ensures shown == "Influencer" <==> interest == Category.Influencer.Key()
    ensures shown == "Need" <==> interest == Category.Need.Key()
    ensures shown == "Curious" <==> interest != "influencer" && interest != "need"
  {
    if interest == "influencer" then "Influencer"
    else if interest == "need" then "Need"
    else "Curious"
  }

  /** The category whose key `interest` is, if any. */
  function ParseCategory(interest: string): (r: Option<Category>)
    ensures r.Some? ==> r.value.Key() == interest
    ensures r.None? ==> forall c: Category :: c.Key() != interest
  {
    if interest == "influencer" then Some(Influencer)
    else if interest == "need" then Some(Need)
    else if interest == "curious" then Some(Curious)
    else None
  }

  /** A string is a valid interest exactly when it is the key of one of the
      three categories. */
  lemma InterestKeysExact(interest: string)
    ensures IsValidInterest(interest) <==> ParseCategory(interest).Some?
    ensures IsValidInterest(interest) <==> exists c: Category :: c.Key() == interest
  {
    if IsValidInterest(interest) {
      var c := ParseCategory(interest).value;
      assert c.Key() == interest;
    }
  }

  /** Keys round-trip through parsing, and `formatChoiceLabel` gives every
      category its own label. */
  lemma KeyRoundTrip(c: Category)
    ensures ParseCategory(c.Key()) == Some(c)
    ensures IsValidInterest(c.Key())
    ensures FormatChoiceLabel(c.Key()) == c.Label()
  {
  }

  /** Distinct keys get distinct labels, so the log line says which key was
      chosen. */
  lemma LabelsDistinct(a: string, b: string)
    requires IsValidInterest(a) && IsValidInterest(b)
    ensures FormatChoiceLabel(a) == FormatChoiceLabel(b) <==> a == b
  {
  }

  /** The labels contain no space, which keeps log lines parseable. */
  lemma LabelHasNoSpace(interest: string)
    ensures ' ' !in FormatChoiceLabel(interest) && '\n' !in FormatChoiceLabel(interest)
  {
  }
}
