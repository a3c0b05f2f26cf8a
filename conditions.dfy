/** The conditions a test asks a component about: plain values, compared
    structurally, with no behaviour of their own. */
module Conditions {
  import opened Support

  datatype Condition =
    | Visible
    | Hidden
    | Enabled
    | Disabled
    | Required
    | Readonly
    | Editable
    | Selected
    | Checked
    | Expanded
    | Collapsed
    | Caption(caption: string)
    | CaptionContains(captionSubstring: string)
    | Value(expectedValue: Option<string>)                    // the expectation may be null
    | ValueContains(expectedValueSubstring: Option<string>)
    | DateValue(expectedDate: string)
    | Other(name: string)  // any further condition of the open set
}
