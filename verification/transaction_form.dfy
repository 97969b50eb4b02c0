/**
 * The new-transaction form: the inputs are trimmed, the category turned into
 * "absent" when empty, the schema's rules checked in field order with only
 * the first violation reported, and on success one row inserted with today's
 * date, the inputs cleared and the caller asked to refresh.
 */
module TransactionForm {
  import opened Wrappers
  import opened Calendar
  import opened Feedback

  // ---------------------------------------------------------------------------
  // Trimming
  // ---------------------------------------------------------------------------

  /** The characters `String.prototype.trim` strips: ECMAScript white space and line terminators. */
  predicate IsWhitespace(c: char) {
    var n := c as int;
    || n == 0x09 || n == 0x0A || n == 0x0B || n == 0x0C || n == 0x0D || n == 0x20
    || n == 0xA0 || n == 0x1680 || (0x2000 <= n <= 0x200A) || n == 0x2028 || n == 0x2029
    || n == 0x202F || n == 0x205F || n == 0x3000 || n == 0xFEFF
  }

  predicate AllWhitespace(s: string) {
    forall i :: 0 <= i < |s| ==> IsWhitespace(s[i])
  }

  /** The first index at or after `i` that does not hold white space (`|s|` if there is none). */
  function SkipLeading(s: string, i: nat): (j: nat)
    requires i <= |s|
    ensures i <= j <= |s|
    ensures forall k :: i <= k < j ==> IsWhitespace(s[k])
    ensures j == |s| || !IsWhitespace(s[j])
    decreases |s| - i
  {
    if i < |s| && IsWhitespace(s[i]) then SkipLeading(s, i + 1) else i
  }

  /** The end of `s[lo..hi]` once its trailing white space is dropped. */
  function SkipTrailing(s: string, lo: nat, hi: nat): (j: nat)
    requires lo <= hi <= |s|
    ensures lo <= j <= hi
    ensures forall k :: j <= k < hi ==> IsWhitespace(s[k])
    ensures j == lo || !IsWhitespace(s[j - 1])
  {
    if lo < hi && IsWhitespace(s[hi - 1]) then SkipTrailing(s, lo, hi - 1) else hi
  }

  /**
   * `String.prototype.trim`: the slice of `s` left after removing white space
   * at both ends. The result neither starts nor ends with white space, and it
   * is empty exactly when `s` is all white space.
   */
  function Trim(s: string): (r: string)
    ensures |r| <= |s|
    ensures r == [] || (!IsWhitespace(r[0]) && !IsWhitespace(r[|r| - 1]))
    ensures r == [] <==> AllWhitespace(s)
  {
    var lo := SkipLeading(s, 0);
    var hi := SkipTrailing(s, lo, |s|);
    assert lo < hi ==> s[lo..hi][0] == s[lo] && s[lo..hi][hi - lo - 1] == s[hi - 1];
    s[lo..hi]
  }

  /**
   * What trimming cuts off: `Trim(s)` is the slice of `s` starting at the
   * first non-white-space character, and everything before and after that
   * slice is white space.
   */
  lemma TrimSlice(s: string)
    ensures var lo := SkipLeading(s, 0); var r := Trim(s);
      && lo + |r| <= |s|
      && r == s[lo..lo + |r|]
      && (forall k :: 0 <= k < lo ==> IsWhitespace(s[k]))
      && (forall k :: lo + |r| <= k < |s| ==> IsWhitespace(s[k]))
  {
  }

  /** Trimming twice trims nothing more. */
  lemma TrimIdempotent(s: string)
    ensures Trim(Trim(s)) == Trim(s)
  {
    var r := Trim(s);
    if r != [] {
      assert SkipLeading(r, 0) == 0;
      assert SkipTrailing(r, 0, |r|) == |r|;
      assert r[0..|r|] == r;
    }
  }

  // ---------------------------------------------------------------------------
  // The schema
  // ---------------------------------------------------------------------------

  /** The largest accepted amount. */
  const MaxAmount: real := 999999999.99

  const MaxDescriptionLength: nat := 200
  const MaxCategoryLength: nat := 100

  /** The schema's rules, in the order the validator checks them. */
  datatype FieldError =
    | AmountNotANumber
    | AmountNotPositive
    | AmountTooLarge
    | DescriptionMissing
    | DescriptionTooLong
    | CategoryTooLong

  /** Position of a rule in checking order: amount rules, then description, then category. */
  function Rank(e: FieldError): nat {
    match e
    case AmountNotANumber => 0
    case AmountNotPositive => 1
    case AmountTooLarge => 2
    case DescriptionMissing => 3
    case DescriptionTooLong => 4
    case CategoryTooLong => 5
  }

  /** The message the toast shows for a rule; rules without a custom message show the validator's default. */
  function ErrorMessage(e: FieldError): string {
    match e
    case AmountNotANumber => "Expected number, received nan"
    case AmountNotPositive => "Amount must be positive"
    case AmountTooLarge => "Number must be less than or equal to 999999999.99"
    case DescriptionMissing => "Description is required"
    case DescriptionTooLong => "String must contain at most 200 character(s)"
    case CategoryTooLong => "String must contain at most 100 character(s)"
  }

  /** The object handed to the schema: the parsed amount (`None` for NaN), the trimmed description and the normalised category. */
  datatype SchemaInput = SchemaInput(amount: Option<real>, description: string, category: Option<string>)

  /** The category's normalisation: trimmed, and absent when trimming leaves nothing. */
  function NormalizeCategory(category: string): (r: Option<string>)
    ensures r.None? <==> AllWhitespace(category)
    ensures r.Some? ==> r.value == Trim(category) && r.value != []
  {
    var c := Trim(category);
    if c == [] then None else Some(c)
  }

  /** The schema's input as `handleSubmit` assembles it from the raw inputs. */
  function Prepare(amount: Option<real>, description: string, category: string): SchemaInput {
    SchemaInput(amount, Trim(description), NormalizeCategory(category))
  }

  /** Whether `input` breaks rule `e`, each rule stated on its own. */
  predicate Violates(input: SchemaInput, e: FieldError) {
    match e
    case AmountNotANumber => input.amount.None?
    case AmountNotPositive => input.amount.Some? && input.amount.value <= 0.0
    case AmountTooLarge => input.amount.Some? && input.amount.value > MaxAmount
    case DescriptionMissing => |input.description| < 1
    case DescriptionTooLong => |input.description| > MaxDescriptionLength
    case CategoryTooLong => input.category.Some? && |input.category.value| > MaxCategoryLength
  }

  /** The values that pass the schema. */
  datatype Validated = Validated(amount: real, description: string, category: Option<string>)

  /**
   * The schema's verdict: success exactly when no rule is broken, carrying the
   * input's values; otherwise the first broken rule in checking order.
   */
  function Validate(input: SchemaInput): (r: Result<Validated, FieldError>)
    ensures r.Failure? ==> Violates(input, r.error)
    ensures r.Failure? ==> forall e :: Rank(e) < Rank(r.error) ==> !Violates(input, e)
    ensures r.Success? <==> forall e :: !Violates(input, e)
    ensures r.Success? ==> input.amount.Some? && r.value == Validated(input.amount.value, input.description, input.category)
  {
    if input.amount.None? then
      assert Violates(input, AmountNotANumber);
      Failure(AmountNotANumber)
    else if input.amount.value <= 0.0 then
      assert Violates(input, AmountNotPositive);
      Failure(AmountNotPositive)
    else if input.amount.value > MaxAmount then
      assert Violates(input, AmountTooLarge);
      Failure(AmountTooLarge)
    else if |input.description| < 1 then
      assert Violates(input, DescriptionMissing);
      Failure(DescriptionMissing)
    else if |input.description| > MaxDescriptionLength then
      assert Violates(input, DescriptionTooLong);
      Failure(DescriptionTooLong)
    else if input.category.Some? && |input.category.value| > MaxCategoryLength then
      assert Violates(input, CategoryTooLong);
      Failure(CategoryTooLong)
    else Success(Validated(input.amount.value, input.description, input.category))
  }

  /** The amount bounds: zero and below are refused, the maximum itself is accepted, one cent more is refused. */
  lemma AmountBounds(description: string, category: Option<string>)
    requires 1 <= |description| <= MaxDescriptionLength
    requires category.Some? ==> |category.value| <= MaxCategoryLength
    ensures Validate(SchemaInput(Some(0.0), description, category)) == Failure(AmountNotPositive)
    ensures Validate(SchemaInput(Some(MaxAmount), description, category)).Success?
    ensures Validate(SchemaInput(Some(1000000000.00), description, category)) == Failure(AmountTooLarge)
    ensures forall a: real :: a <= 0.0 ==> Validate(SchemaInput(Some(a), description, category)) == Failure(AmountNotPositive)
  {
  }

  /** A description of nothing but white space is refused whenever the amount is acceptable. */
  lemma BlankDescriptionRefused(amount: real, description: string, category: string)
    requires 0.0 < amount <= MaxAmount
    requires AllWhitespace(description)
    ensures Validate(Prepare(Some(amount), description, category)) == Failure(DescriptionMissing)
  {
  }

  /** A description longer than 200 characters once trimmed is refused whenever the amount is acceptable. */
  lemma LongDescriptionRefused(amount: real, description: string, category: string)
    requires 0.0 < amount <= MaxAmount
    requires |Trim(description)| > MaxDescriptionLength
    ensures Validate(Prepare(Some(amount), description, category)) == Failure(DescriptionTooLong)
  {
  }

  /** A blank category never causes a refusal: it is absent. */
  lemma BlankCategoryAbsent(amount: Option<real>, description: string, category: string)
    requires AllWhitespace(category)
    ensures Prepare(amount, description, category).category == None
    ensures !Violates(Prepare(amount, description, category), CategoryTooLong)
  {
  }

  /** The slice `Trim` keeps of "  Food  ": characters 2 to 6. */
  lemma TrimFood()
    ensures Trim("  Food  ") == "Food"
  {
    var s := "  Food  ";
    assert IsWhitespace(s[0]) && IsWhitespace(s[1]) && !IsWhitespace(s[2]);
    assert SkipLeading(s, 2) == 2;
    assert SkipLeading(s, 1) == 2;
    assert SkipLeading(s, 0) == 2;
    assert IsWhitespace(s[7]) && IsWhitespace(s[6]) && !IsWhitespace(s[5]);
    assert SkipTrailing(s, 2, 6) == 6;
    assert SkipTrailing(s, 2, 7) == 6;
    assert SkipTrailing(s, 2, 8) == 6;
    assert s[2..6] == "Food";
  }

  /** The category "  Food  " is stored as "Food", and "   " as absent. */
  lemma CategoryExamples()
    ensures NormalizeCategory("  Food  ") == Some("Food")
    ensures NormalizeCategory("   ") == None
  {
    TrimFood();
    var b := "   ";
    assert AllWhitespace(b) by {
      assert IsWhitespace(b[0]) && IsWhitespace(b[1]) && IsWhitespace(b[2]);
    }
  }

  // ---------------------------------------------------------------------------
  // Submitting
  // ---------------------------------------------------------------------------

  /** The income / expense toggle. */
  datatype EntryKind = Income | Expense

  /** The `type` value written into the row. */
  function KindName(k: EntryKind): string {
    match k
    case Income => "income"
    case Expense => "expense"
  }

  /** The success toast. */
  function AddedMessage(k: EntryKind): string {
    (if k == Income then "Income" else "Expense") + " added successfully!"
  }

  /** The form's state: the toggle and the three text inputs. */
  datatype Form = Form(kind: EntryKind, amount: string, description: string, category: string)

  /** The row sent to the store's insert. */
  datatype NewRow = NewRow(
    userId: string,
    kind: string,
    amount: real,
    description: string,
    category: Option<string>,
    date: Date)

  /** What a submission leaves behind: the form, the row sent to the store if any, how often the caller was asked to refresh, and the toast. */
  datatype SubmitOutcome = SubmitOutcome(form: Form, sent: Option<NewRow>, refreshes: nat, notice: Notice)

  /** The schema's input as `handleSubmit` builds it from the form. */
  function SchemaOf(form: Form, parseAmount: string -> Option<real>): SchemaInput {
    Prepare(parseAmount(form.amount), form.description, form.category)
  }

  /**
   * `handleSubmit`. `parseAmount` stands for `parseFloat` (`None` for NaN),
   * `user` for the signed-in user, `today` for the current date and `reply`
   * for the store's answer to the insert.
   */
  function Submit(form: Form, parseAmount: string -> Option<real>, user: Option<string>, today: Date, reply: StoreReply): (r: SubmitOutcome)
    ensures var v := Validate(SchemaOf(form, parseAmount));
      && (r.sent.Some? <==> v.Success? && user.Some?)
      && (r.sent.Some? ==> r.sent.value == NewRow(user.value, KindName(form.kind), v.value.amount,
                                                   v.value.description, v.value.category, today))
      && (v.Failure? ==> r.notice == Error(ErrorMessage(v.error)))
      && (v.Success? && user.None? ==> r.notice == Error("Not authenticated"))
      && (r.sent.Some? && reply.Failed? ==> r.notice == Error(MessageOr(reply.message, "Failed to add transaction")))
    ensures r.refreshes <= 1
    ensures r.refreshes == 1 <==> r.sent.Some? && reply == Done
    ensures r.refreshes == 1 ==> r.form == Form(form.kind, "", "", "") && r.notice == Info(AddedMessage(form.kind))
    ensures r.refreshes == 0 ==> r.form == form && r.notice.Error?
  {
    match Validate(SchemaOf(form, parseAmount))
    case Failure(e) => SubmitOutcome(form, None, 0, Error(ErrorMessage(e)))
    case Success(v) =>
      if user.None? then SubmitOutcome(form, None, 0, Error("Not authenticated"))
      else
        var row := NewRow(user.value, KindName(form.kind), v.amount, v.description, v.category, today);
        if reply.Done? then
          SubmitOutcome(Form(form.kind, "", "", ""), Some(row), 1, Info(AddedMessage(form.kind)))
        else
          SubmitOutcome(form, Some(row), 0, Error(MessageOr(reply.message, "Failed to add transaction")))
  }

  /** A row sent to the store always satisfies the schema: positive, bounded, trimmed and non-empty. */
  lemma SentRowsAreValid(form: Form, parseAmount: string -> Option<real>, user: Option<string>, today: Date, reply: StoreReply)
    ensures var r := Submit(form, parseAmount, user, today, reply);
      r.sent.Some? ==>
        && 0.0 < r.sent.value.amount <= MaxAmount
        && 1 <= |r.sent.value.description| <= MaxDescriptionLength
        && r.sent.value.description == Trim(r.sent.value.description)
        && (r.sent.value.category.Some? ==> 1 <= |r.sent.value.category.value| <= MaxCategoryLength)
        && r.sent.value.date == today
  {
    var r := Submit(form, parseAmount, user, today, reply);
    if r.sent.Some? {
      var v := Validate(SchemaOf(form, parseAmount));
      assert !Violates(SchemaOf(form, parseAmount), AmountNotPositive);
      assert !Violates(SchemaOf(form, parseAmount), AmountTooLarge);
      assert !Violates(SchemaOf(form, parseAmount), DescriptionMissing);
      assert !Violates(SchemaOf(form, parseAmount), DescriptionTooLong);
      assert !Violates(SchemaOf(form, parseAmount), CategoryTooLong);
      TrimIdempotent(form.description);
    }
  }
}
