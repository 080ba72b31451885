/**
 * The runtime environment of the server (src/config.rs): a closed set of two
 * values, printed by `as_str` and parsed case-insensitively by `try_from`.
 * Rust's Unicode `to_lowercase` is modelled by ASCII lowercasing.
 */
module Config {
  import opened Wrappers

  datatype Environment = Local | Production

  /** The text appended to the lowercased input in the parse error. */
  const UnsupportedSuffix: string :=
    " is not a supported environment. Use either " + "`local`" + " or " + "`production`" + "."

  /** ASCII lowercasing of one character. */
  function LowerChar(c: char): char
  {
    if 'A' <= c <= 'Z' then (c as int + 32) as char else c
  }

  predicate IsLowerFixed(s: string)
  {
    forall i :: 0 <= i < |s| ==> LowerChar(s[i]) == s[i]
  }

  /** Lowercasing a string, character by character. */
  function ToLower(s: string): (r: string)
    ensures |r| == |s|
    ensures IsLowerFixed(r)
    ensures forall i :: 0 <= i < |s| ==> LowerChar(r[i]) == LowerChar(s[i])
    ensures IsLowerFixed(s) ==> r == s
  {
    seq(|s|, i requires 0 <= i < |s| => LowerChar(s[i]))
  }

  /** `Environment::as_str`. */
  function AsStr(e: Environment): (s: string)
    ensures IsLowerFixed(s)
    ensures |s| > 0
  {
    match e
    case Local => "local"
    case Production => "production"
  }

  /** `TryFrom<String> for Environment`. */
  function TryFrom(s: string): (r: Result<Environment, string>)
    ensures r.Ok? <==> ToLower(s) == "local" || ToLower(s) == "production"
    ensures r.Ok? ==> AsStr(r.value) == ToLower(s)
    ensures r.Err? ==> r.error == ToLower(s) + UnsupportedSuffix
  {
    var lower := ToLower(s);
    if lower == "local" then Ok(Local)
    else if lower == "production" then Ok(Production)
    else Err(lower + UnsupportedSuffix)
  }

  /** The environment `get_config` selects from the `LR_ENVIRONMENT` variable
      (None when it is unset). An Err here is where `get_config` panics. */
  function SelectEnvironment(lrEnvironment: Option<string>): (r: Result<Environment, string>)
    ensures lrEnvironment.None? ==> r == Ok(Local)
    ensures lrEnvironment.Some? ==> r == TryFrom(lrEnvironment.value)
  {
    TryFrom(match lrEnvironment case Some(v) => v case None => "local")
  }

  /** `s` occurs in `text` at offset `k`. */
  predicate OccursAt(text: string, s: string, k: int)
  {
    0 <= k <= |text| - |s| && text[k..k + |s|] == s
  }

  /** `s` occurs in `text` at some offset. */
  ghost predicate Contains(text: string, s: string)
  {
    exists k :: OccursAt(text, s, k)
  }

  // ---------------------------------------------------------------- lemmas

  lemma AsStrValues()
    ensures AsStr(Local) == "local"
    ensures AsStr(Production) == "production"
  {
  }

  /** Distinct variants print as distinct strings. */
  lemma AsStrInjective(e1: Environment, e2: Environment)
    ensures AsStr(e1) == AsStr(e2) ==> e1 == e2
  {
  }

  lemma ToLowerIdempotent(s: string)
    ensures ToLower(ToLower(s)) == ToLower(s)
  {
  }

  /** Printing then parsing gives back the variant. */
  lemma RoundTrip(e: Environment)
    ensures TryFrom(AsStr(e)) == Ok(e)
  {
  }

  /** The parse depends only on the lowercase of its input. */
  lemma CaseInsensitive(s: string, t: string)
    requires ToLower(s) == ToLower(t)
    ensures TryFrom(s) == TryFrom(t)
  {
  }

  lemma ParsesUpperCase()
    ensures TryFrom("PRODUCTION") == Ok(Production)
    ensures TryFrom("Local") == Ok(Local)
  {
  }

  /** Exactly the inputs whose lowercase is not one of the two names are rejected. */
  lemma RejectsExactlyOthers(s: string)
    ensures TryFrom(s).Err? <==> forall e :: ToLower(s) != AsStr(e)
  {
  }

  /** The error message starts with the lowercased input and names both values. */
  lemma ErrorMessageNamesBoth(s: string)
    requires TryFrom(s).Err?
    ensures Contains(TryFrom(s).error, ToLower(s))
    ensures Contains(TryFrom(s).error, "`local`")
    ensures Contains(TryFrom(s).error, "`production`")
  {
    var msg := TryFrom(s).error;
    assert OccursAt(msg, ToLower(s), 0);
    var head := ToLower(s) + " is not a supported environment. Use either ";
    assert msg == head + "`local`" + " or " + "`production`" + ".";
    assert OccursAt(msg, "`local`", |head|);
    assert OccursAt(msg, "`production`", |head| + 11);
  }

  /** An unset `LR_ENVIRONMENT` selects the local environment, which prints as "local". */
  lemma DefaultIsLocal()
    ensures SelectEnvironment(None) == Ok(Local)
    ensures AsStr(SelectEnvironment(None).value) == "local"
  {
  }
}
