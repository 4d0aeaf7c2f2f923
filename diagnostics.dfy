/** The compile-time errors the macro reports, each at a source location. */
module Diagnostics {
  import opened Wrappers
  import opened Syntax

  /** The six option keywords of `#[trace(...)]`. */
  datatype Key = PrefixEnterKey | PrefixExitKey | EnableKey | DisableKey | PauseKey | PrettyKey

  /** The keyword an option name stands for; any other name is a value-format override. */
  function KeywordOf(name: string): (k: Option<Key>)
    ensures k.Some? <==> name in {"prefix_enter", "prefix_exit", "enable", "disable", "pause", "pretty"}
    ensures k.Some? ==> KeyText(k.value) == name
  {
    if name == "prefix_enter" then Some(PrefixEnterKey)
    else if name == "prefix_exit" then Some(PrefixExitKey)
    else if name == "enable" then Some(EnableKey)
    else if name == "disable" then Some(DisableKey)
    else if name == "pause" then Some(PauseKey)
    else if name == "pretty" then Some(PrettyKey)
    else None
  }

  function KeyText(k: Key): string
  {
    match k
    case PrefixEnterKey => "prefix_enter"
    case PrefixExitKey => "prefix_exit"
    case EnableKey => "enable"
    case DisableKey => "disable"
    case PauseKey => "pause"
    case PrettyKey => "pretty"
  }


  /** What went wrong; `Message` gives the text the user sees. */
  datatype ErrorKind =
    | ShapeError(key: Key)            // a keyword given the wrong kind of value
    | FormatterNeedsString            // a format override not given as `name = "..."`
    | LitNotString(key: Key)          // `prefix_enter = 1`
    | FormatterLitNotString           // `a = 1`
    | NotWord(key: Key)               // `enable("a")`
    | LiteralNotAllowed               // a bare literal as a top-level argument
    | DuplicateFormatting(name: string)
    | Duplicate(key: Key)
    | Conflict                        // both `enable` and `disable`
    | NotSupported                    // `#[trace]` on an item other than fn, mod, impl
    | Unimplemented                   // a construct on which the macro panics
    | AttrUnparsable                  // a nested `#[trace(...)]` whose tokens do not parse
    | SubtractOverflow                // the panic on the bracket-stripping of an empty token string

  datatype Diagnostic = Diagnostic(span: Span, kind: ErrorKind)

  function Message(kind: ErrorKind): string
  {
    match kind
    case ShapeError(k) =>
      "`" + KeyText(k) + "` "
      + (match k
         case PrefixEnterKey => "requires a string value"
         case PrefixExitKey => "requires a string value"
         case EnableKey => "requires a list of meta words"
         case DisableKey => "requires a list of meta words"
         case PauseKey => "must be a meta word"
         case PrettyKey => "must be a meta word")
    case FormatterNeedsString => "variable formatter requires a string value"
    case LitNotString(k) => "`" + KeyText(k) + "` must have a string value"
    case FormatterLitNotString => "value formatter must have a string value"
    case NotWord(k) => "`" + KeyText(k) + "` must contain words only"
    case LiteralNotAllowed => "literal attribute not allowed"
    case DuplicateFormatting(name) => "duplicate formatting for `" + name + "`"
    case Duplicate(k) => "duplicate `" + KeyText(k) + "`"
    case Conflict => "cannot have both `enable` and `disable`"
    case NotSupported => "#[trace] is not supported for this item"
    case Unimplemented => "not implemented"
    case AttrUnparsable => "(the attribute parser's own message)"
    case SubtractOverflow => "attempt to subtract with overflow"
  }
}
