/** JSON texts (RFC 8259, sections 2 to 7) as trees that remember every character: the printer
    is the grammar the scanners are judged against. */
module JsonText {
  import opened Texts

  const LEFT_BRACE: Rune := 0x7B
  const RIGHT_BRACE: Rune := 0x7D
  const LEFT_BRACKET: Rune := 0x5B
  const RIGHT_BRACKET: Rune := 0x5D
  const COMMA: Rune := 0x2C

  /** One character of a string: itself, a two-character escape, or `\uXXXX`. */
  datatype Piece =
    | Plain(c: Rune)
    | Escape(c: Rune)
    | UnicodeEscape(a: Rune, b: Rune, c: Rune, d: Rune)

  /** Every whitespace run of the text is part of the tree. */
  datatype Syntax =
    | ObjectText(members: MemberTexts, close: Text)
    | ArrayText(elements: ElementTexts, close: Text)
    | StringText(pieces: seq<Piece>)
    | ScalarText(text: Text)

  datatype MemberTexts =
    | NoMembers
    | MemberText(lead: Text, name: seq<Piece>, beforeColon: Text, afterColon: Text, value: Syntax, trail: Text,
                 more: MemberTexts)

  datatype ElementTexts =
    | NoElements
    | ElementText(lead: Text, value: Syntax, trail: Text, more: ElementTexts)

  // ----------------------------------------------------------------- printing

  function PrintPiece(p: Piece): Text {
    match p
    case Plain(c) => [c]
    case Escape(c) => [BACKSLASH, c]
    case UnicodeEscape(a, b, c, d) => [BACKSLASH, LOWER_U, a, b, c, d]
  }

  function PrintPieces(pieces: seq<Piece>): Text {
    if pieces == [] then [] else PrintPiece(pieces[0]) + PrintPieces(pieces[1..])
  }

  function PrintString(pieces: seq<Piece>): Text {
    [QUOTE] + PrintPieces(pieces) + [QUOTE]
  }

  function Print(v: Syntax): Text {
    match v
    case ObjectText(members, close) => [LEFT_BRACE] + (PrintMembers(members) + close) + [RIGHT_BRACE]
    case ArrayText(elements, close) => [LEFT_BRACKET] + (PrintElements(elements) + close) + [RIGHT_BRACKET]
    case StringText(pieces) => PrintString(pieces)
    case ScalarText(text) => text
  }

  function PrintMembers(ms: MemberTexts): Text {
    match ms
    case NoMembers => []
    case MemberText(lead, name, beforeColon, afterColon, value, trail, more) =>
      lead + (PrintString(name) + (beforeColon + ([COLON] + (afterColon + (Print(value) + (trail +
        (if more.NoMembers? then [] else [COMMA] + PrintMembers(more))))))))
  }

  function PrintElements(es: ElementTexts): Text {
    match es
    case NoElements => []
    case ElementText(lead, value, trail, more) =>
      lead + (Print(value) + (trail + (if more.NoElements? then [] else [COMMA] + PrintElements(more))))
  }

  // ----------------------------------------------------------------- legality

  predicate IsBlank(c: Rune) { c == 0x20 || c == 0x09 || c == 0x0A || c == 0x0D }

  predicate AllBlank(t: Text) {
    forall i :: 0 <= i < |t| ==> IsBlank(t[i])
  }

  predicate IsHexDigit(c: Rune) { 0x30 <= c <= 0x39 || 0x41 <= c <= 0x46 || 0x61 <= c <= 0x66 }

  /** Raw characters from the space on, quotes and backslashes only escaped; the escape letters. */
  predicate LegalPiece(p: Piece) {
    match p
    case Plain(c) => c >= 0x20 && c != QUOTE && c != BACKSLASH
    case Escape(c) => c == QUOTE || c == BACKSLASH || c == SLASH || c == 0x62 || c == 0x66 || c == 0x6E || c == 0x72
        || c == 0x74
    case UnicodeEscape(a, b, c, d) => IsHexDigit(a) && IsHexDigit(b) && IsHexDigit(c) && IsHexDigit(d)
  }

  predicate LegalPieces(pieces: seq<Piece>) {
    forall i :: 0 <= i < |pieces| ==> LegalPiece(pieces[i])
  }

  /** The characters of numbers and of `true`, `false` and `null`. */
  predicate IsScalarRune(c: Rune) {
    0x30 <= c <= 0x39 || 0x61 <= c <= 0x7A || c == 0x2B || c == 0x2D || c == 0x2E || c == 0x45
  }

  predicate LegalScalar(t: Text) {
    t != [] && forall i :: 0 <= i < |t| ==> IsScalarRune(t[i])
  }

  predicate Legal(v: Syntax) {
    match v
    case ObjectText(members, close) => LegalMembers(members) && AllBlank(close)
    case ArrayText(elements, close) => LegalElements(elements) && AllBlank(close)
    case StringText(pieces) => LegalPieces(pieces)
    case ScalarText(text) => LegalScalar(text)
  }

  predicate LegalMembers(ms: MemberTexts) {
    match ms
    case NoMembers => true
    case MemberText(lead, name, beforeColon, afterColon, value, trail, more) =>
      && AllBlank(lead) && LegalPieces(name) && AllBlank(beforeColon) && AllBlank(afterColon)
      && Legal(value) && AllBlank(trail) && LegalMembers(more)
  }

  predicate LegalElements(es: ElementTexts) {
    match es
    case NoElements => true
    case ElementText(lead, value, trail, more) =>
      AllBlank(lead) && Legal(value) && AllBlank(trail) && LegalElements(more)
  }

  // ------------------------------------------------------------------ nesting

  function Max(a: int, b: int): int { if a < b then b else a }

  /** How deep containers nest: objects alone, or arrays as well. */
  function Nesting(arrays: bool, v: Syntax): nat {
    match v
    case ObjectText(members, _) => 1 + NestingOfMembers(arrays, members)
    case ArrayText(elements, _) => (if arrays then 1 else 0) + NestingOfElements(arrays, elements)
    case _ => 0
  }

  function NestingOfMembers(arrays: bool, ms: MemberTexts): nat {
    match ms
    case NoMembers => 0
    case MemberText(_, _, _, _, value, _, more) => Max(Nesting(arrays, value), NestingOfMembers(arrays, more))
  }

  function NestingOfElements(arrays: bool, es: ElementTexts): nat {
    match es
    case NoElements => 0
    case ElementText(_, value, _, more) => Max(Nesting(arrays, value), NestingOfElements(arrays, more))
  }
}
