/**
 * `MovieTitleValidationPipe`: refuses a title of one or two UTF-16 code
 * units and otherwise hands the value on untouched. A missing or empty
 * title is not checked.
 */
module MovieTitleValidationPipe {
  import opened Wrappers
  import Text
  import Http

  const ShortTitleMessage := "The title should be more than 3 characters long"

  /** `transform`: `!value` passes; `value.length <= 2` is refused; anything else passes. */
  function Transform(value: Option<string>): (r: Http.Outcome<Option<string>>)
    ensures r.Ok? ==> r.value == value
    ensures r.Err? ==> r.error == Http.BadRequest(ShortTitleMessage)
    ensures r.Err? <==> value.Some? && value.value != "" && Text.Utf16Length(value.value) <= 2
  {
    if value.None? || value.value == "" then Ok(value)
    else if Text.Utf16Length(value.value) <= 2 then Err(Http.BadRequest(ShortTitleMessage))
    else Ok(value)
  }

  /** Three characters are enough, although the message asks for more than three. */
  lemma ThreeCharactersPass(title: string)
    requires |title| == 3
    ensures Transform(Some(title)) == Ok(Some(title))
  {
  }

  /**
   * Length counts UTF-16 code units: a title of two characters outside the
   * Basic Multilingual Plane (such as two emoji) is four units long and
   * passes, while one such character alone is refused.
   */
  lemma AstralCharactersCountTwice(c: char, d: char)
    requires c as int >= 0x1_0000 && d as int >= 0x1_0000
    ensures Transform(Some([c, d])) == Ok(Some([c, d]))
    ensures Transform(Some([c])).Err?
  {
    assert [c, d][1..] == [d];
    assert Text.Utf16Length([c, d]) == 2 + Text.Utf16Length([d]);
  }

  /** Passing a title through the pipe twice is the same as once. */
  lemma TransformIdempotent(value: Option<string>)
    requires Transform(value).Ok?
    ensures Transform(Transform(value).value) == Transform(value)
  {
  }
}
