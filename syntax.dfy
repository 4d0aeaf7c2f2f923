/**
 * The parts of the host language's syntax tree that the `#[trace]` macro
 * looks at.  Everything else in the tree (types, expressions, generics,
 * visibility) is opaque: the macro never inspects it.
 */
module Syntax {

  /** An abstract source location, used only to say where a diagnostic points. */
  type Span = nat

  /** An identifier token.  Identifiers compare (and hash) by their text only. */
  datatype Ident = Ident(name: string, span: Span)

  /** A literal token: a string literal, or any other literal (number, char, bool, ...). */
  datatype Lit = Str(span: Span, value: string) | NonStr(span: Span)

  /** One attribute argument that starts with a name: `name`, `name(...)` or `name = lit`. */
  datatype Meta =
    | Word(ident: Ident)
    | List(ident: Ident, nested: seq<NestedMeta>)
    | NameValue(ident: Ident, lit: Lit)

  /** One comma-separated attribute argument; `span` covers the whole argument. */
  datatype NestedMeta =
    | MetaItem(span: Span, meta: Meta)
    | Literal(span: Span, lit: Lit)

  /**
   * A parameter pattern; only plain names and tuples of patterns are supported.
   * A tuple pattern `(f0, f1, .., b0, b1)` keeps the elements before the `..`
   * in `front` and those after it in `back`.
   */
  datatype Pat =
    | PatIdent(ident: Ident)
    | PatTuple(front: seq<Pat>, back: seq<Pat>)
    | PatOther

  /** One declared function input. */
  datatype FnArg =
    | SelfRef            // `&self`, `&mut self`
    | SelfValue          // `self`, `mut self`
    | Captured(pat: Pat) // `pat: Type`
    | Inferred           // a closure-style argument without a type
    | Ignored            // a bare type without a pattern

  /** A function signature, reduced to the name and the declared inputs. */
  datatype Signature = Signature(ident: Ident, inputs: seq<FnArg>)

  /** A value handed to the logger by the generated code. */
  datatype LogValue = ArgValue(name: string) | ResultValue

  /** A function body: a sequence of statements. */
  datatype Block = Block(stmts: seq<Stmt>)

  /**
   * Statements.  `Opaque` stands for any statement of the original program;
   * the other four are the ones the macro generates.
   */
  datatype Stmt =
    | Opaque(code: nat)
    | LogTrace(format: string, values: seq<LogValue>)  // emit one trace record: a format string and its values
    | PauseForInput                                     // block until one line is read from stdin
    | BindClosureResult(body: Block)                    // run the original body once, as a closure called on the spot, and bind its value
    | ReturnResult                                      // the bound value, as the value of the block

  /** The tokens that follow the path of an outer attribute. */
  datatype AttrTokens =
    | Tokens(args: seq<NestedMeta>) // `(args)`: the inner text re-parses as attribute arguments
    | NoTokens                      // nothing follows the path, as in `#[trace]`
    | Malformed(error: Span)        // the inner text does not re-parse; the parser's error points here

  /**
   * An outer attribute `#[path tokens]`; `path` is the text of the path's
   * first segment, which is all the macro compares.
   */
  datatype Attribute = Attribute(span: Span, path: string, tokens: AttrTokens)

  /** An item of an `impl` block. */
  datatype ImplMember =
    | Method(attrs: seq<Attribute>, sig: Signature, block: Block)
    | OtherMember(code: nat) // associated consts, types, macros

  /** A module body: inline `mod m { ... }`, or a file module `mod m;`. */
  datatype ModContent = Inline(items: seq<Item>) | External

  /** A top-level or module-level item. */
  datatype Item =
    | FnItem(span: Span, attrs: seq<Attribute>, sig: Signature, block: Block)
    | ModItem(span: Span, attrs: seq<Attribute>, ident: Ident, content: ModContent)
    | ImplItem(span: Span, attrs: seq<Attribute>, members: seq<ImplMember>)
    | OtherItem(span: Span)
}
