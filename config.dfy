/** The `[preprocessor.gitinfo]` table of `book.toml` after deserialisation:
    every field is optional and defaults are applied by the code that reads
    it. The message, alignment and margin settings are the shapes the layout
    resolver consumes. */
module Config {
  import opened Wrappers

  /** `[preprocessor.gitinfo.message]`: per-placement message templates. */
  datatype MessageConfig = MessageConfig(header: Option<string>, footer: Option<string>, both: Option<string>)

  /** `align`: one value for both placements, or a per-placement record. */
  datatype AlignSetting =
    | One(value: string)
    | Split(header: Option<string>, footer: Option<string>, both: Option<string>)

  /** One margin setting: a scalar, a CSS-shorthand list, or a per-side record. */
  datatype MarginSetting =
    | One(value: string)
    | Quad(values: seq<string>)
    | Sides(top: Option<string>, right: Option<string>, bottom: Option<string>, left: Option<string>)

  /** `[preprocessor.gitinfo.margin]`: a shared base and per-placement settings. */
  datatype MarginConfig = MarginConfig(both: Option<MarginSetting>, header: Option<MarginSetting>, footer: Option<MarginSetting>)

  datatype GitInfoConfig = GitInfoConfig(
    enable: Option<bool>,
    template: Option<string>,
    message: Option<MessageConfig>,
    fontSize: Option<string>,
    separator: Option<string>,
    dateFormat: Option<string>,
    timeFormat: Option<string>,
    timezone: Option<string>,
    branch: Option<string>,
    tag: Option<string>,
    hyperlink: Option<bool>,
    header: Option<bool>,
    footer: Option<bool>,
    align: Option<AlignSetting>,
    margin: Option<MarginConfig>,
    contributors: Option<bool>,
    contributorTitle: Option<string>,
    excludeContributors: Option<seq<string>>)

  /** `GitInfoConfig::default()`: every field unset. */
  const DefaultConfig := GitInfoConfig(None, None, None, None, None, None, None, None, None,
                                       None, None, None, None, None, None, None, None, None)

  const DefaultFontSize := "0.8em"
  /** A bullet between two spaces, as documented for `separator`. */
  const DefaultSeparator := " \U{2022} "
  const DefaultDateFormat := "%Y-%m-%d"
  const DefaultTimeFormat := "%H:%M:%S"
  const DefaultBranch := "main"
}
