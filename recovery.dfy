/**
 * `ErrorRecovery` from utilities.py: an error message is put in the first
 * category, in declared order, one of whose patterns occurs in the
 * lower-cased message; a recovery action is suggested per category and
 * attempt.
 */
module Recovery {
  import opened Wrappers
  import opened Text

  /** One entry of `error_patterns`: a category name and its patterns. */
  datatype Category = Category(name: string, patterns: seq<string>)

  /** `error_patterns`, in its declared (and iteration) order. */
  const ErrorPatterns: seq<Category> := [
    Category("network_timeout", ["timeout", "connection", "network"]),
    Category("video_not_found", ["not found", "404", "does not exist"]),
    Category("access_denied", ["403", "forbidden", "access denied"]),
    Category("rate_limited", ["rate limit", "429", "too many requests"]),
    Category("login_required", ["login", "authentication", "unauthorized"])
  ]

  /** The category of a message that matches no pattern. */
  const UnknownCategory: string := "unknown"

  /** `any(pattern in text for pattern in patterns)` */
  function AnyPatternIn(text: string, patterns: seq<string>): (r: bool)
    ensures r <==> exists i :: 0 <= i < |patterns| && Contains(text, patterns[i])
  {
    if patterns == [] then
      false
    else
      var rest := AnyPatternIn(text, patterns[1..]);
      assert forall i :: 1 <= i < |patterns| ==> patterns[i] == patterns[1..][i - 1];
      Contains(text, patterns[0]) || rest
  }

  predicate Matches(text: string, c: Category) {
    AnyPatternIn(text, c.patterns)
  }

  /** The index of the first category of `table` that `text` matches, if any. */
  function FirstMatch(table: seq<Category>, text: string): (r: Option<nat>)
    ensures r.Some? ==> r.value < |table| && Matches(text, table[r.value])
    ensures r.Some? ==> forall j :: 0 <= j < r.value ==> !Matches(text, table[j])
    ensures r.None? ==> forall j :: 0 <= j < |table| ==> !Matches(text, table[j])
  {
    if table == [] then
      None
    else if Matches(text, table[0]) then
      Some(0)
    else
      var rest := FirstMatch(table[1..], text);
      assert forall j :: 1 <= j < |table| ==> table[j] == table[1..][j - 1];
      match rest
      case None => None
      case Some(k) => Some(k + 1)
  }

  /** `categorize_error`: the first matching category's name, else `unknown`. */
  function CategorizeError(message: string): (r: string)
    ensures r == UnknownCategory || exists k :: 0 <= k < |ErrorPatterns| && r == ErrorPatterns[k].name
    ensures r == UnknownCategory <==> FirstMatch(ErrorPatterns, Lower(message)).None?
  {
    match FirstMatch(ErrorPatterns, Lower(message))
    case None => UnknownCategory
    case Some(k) => ErrorPatterns[k].name
  }

  /**
   * The categoriser returns category k exactly when the lower-cased message
   * matches one of k's patterns and none of an earlier category's; it
   * returns `unknown` exactly when no pattern at all occurs.
   */
  lemma CategorizeFirstMatchWins(message: string, k: nat)
    requires k < |ErrorPatterns|
    ensures CategorizeError(message) == ErrorPatterns[k].name <==>
      Matches(Lower(message), ErrorPatterns[k]) &&
      forall j :: 0 <= j < k ==> !Matches(Lower(message), ErrorPatterns[j])
    ensures CategorizeError(message) == UnknownCategory <==>
      forall j :: 0 <= j < |ErrorPatterns| ==> !Matches(Lower(message), ErrorPatterns[j])
  {
    var names := ["network_timeout", "video_not_found", "access_denied", "rate_limited", "login_required"];
    assert forall j :: 0 <= j < |ErrorPatterns| ==> ErrorPatterns[j].name == names[j];
    assert forall i, j :: 0 <= i < j < |names| ==> names[i] != names[j];
    assert forall j :: 0 <= j < |names| ==> names[j] != UnknownCategory;
  }

  /** The categoriser does not see case: a message and its lower-cased form fall in the same category. */
  lemma CategorizeIgnoresCase(message: string)
    ensures CategorizeError(message) == CategorizeError(Lower(message))
  {
    LowerIdempotent(message);
  }

  /**
   * Network errors take precedence: any message mentioning `timeout` is a
   * `network_timeout`, even one that also mentions `429` or another
   * category's pattern.
   */
  lemma TimeoutWins(message: string)
    requires Contains(Lower(message), "timeout")
    ensures CategorizeError(message) == "network_timeout"
  {
    assert Matches(Lower(message), ErrorPatterns[0]);
  }

  /** A message that mentions a pattern of some category never falls in `unknown`. */
  lemma {:induction false} AnyPatternNotUnknown(message: string, k: nat, i: nat)
    requires k < |ErrorPatterns| && i < |ErrorPatterns[k].patterns|
    requires Contains(Lower(message), ErrorPatterns[k].patterns[i])
    ensures CategorizeError(message) != UnknownCategory
  {
    assert Matches(Lower(message), ErrorPatterns[k]);
    CategorizeFirstMatchWins(message, k);
  }

  // ---------------------------------------------------------------
  // Recovery actions
  // ---------------------------------------------------------------

  /**
   * The dictionaries `suggest_recovery_action` returns: a retry after
   * `delay` seconds, possibly changing the IP (`None` where the value is
   * not known), or giving up.
   */
  datatype RecoveryAction =
    | RetryWithDelay(delay: int, changeIp: Option<bool>)
    | Skip(retry: bool)

  /**
   * `suggest_recovery_action`, for the cases whose outcome is known: the
   * network-timeout delay of the first attempt, and the rate-limit and
   * not-found actions of the source's tests. Every other input gives `None`.
   */
  function SuggestRecoveryAction(category: string, attempt: int): (r: Option<RecoveryAction>)
    ensures r.Some? <==>
      (category == "network_timeout" && attempt == 1) ||
      (category == "rate_limited" && attempt == 2) ||
      (category == "video_not_found" && attempt == 1)
    ensures category == "network_timeout" && attempt == 1 ==> r == Some(RetryWithDelay(30, None))
    ensures category == "rate_limited" && attempt == 2 ==> r == Some(RetryWithDelay(120, Some(true)))
    ensures category == "video_not_found" && attempt == 1 ==> r == Some(Skip(false))
  {
    if category == "network_timeout" && attempt == 1 then Some(RetryWithDelay(30, None))
    else if category == "rate_limited" && attempt == 2 then Some(RetryWithDelay(120, Some(true)))
    else if category == "video_not_found" && attempt == 1 then Some(Skip(false))
    else None
  }
}
