/**
 * `validate_format`, the check the format editor runs before it saves an event-folder
 * template, and the parser it relies on, `string.Formatter().parse`, which splits a
 * template into literal text and replacement fields `{name!conversion:spec}`.
 */
module FormatValidation {
  import opened Wrappers
  import opened Text
  import opened EventFormat

  // ---------------------------------------------------------------------------
  // string.Formatter().parse
  // ---------------------------------------------------------------------------

  /**
   * A replacement field: its name, the conversion character after '!', and the spec
   * after ':'. The parser reports a missing spec and an empty one both as ''; the
   * model keeps them apart (None and Some("")) so that a parse can be rendered back.
   */
  datatype Field = Field(name: string, conversion: Option<char>, spec: Option<string>)

  /** One item of the parse: literal text, followed by a field when one follows it. */
  datatype Piece = Piece(literal: string, field: Option<Field>)

  const Braces: set<char> := {'{', '}'}

  /** Characters that end or interrupt the scan of a field name. */
  const NameStops: set<char> := {'{', '}', ':', '!', '['}

  /** The first index at or after `i` that holds a brace, or |s|. */
  function NextBrace(s: string, i: nat): (j: nat)
    requires i <= |s|
    ensures i <= j <= |s|
    ensures j < |s| ==> s[j] in Braces
    ensures forall m :: i <= m < j ==> s[m] !in Braces
    decreases |s| - i
  {
    if i == |s| || s[i] in Braces then i else NextBrace(s, i + 1)
  }

  /** A ':' in a field name comes after a '[' (an index such as `a[:]`). */
  predicate ColonAfterBracket(name: string) {
    forall m :: 0 <= m < |name| && name[m] == ':' ==> '[' in name[..m]
  }

  /**
   * The scan for the end of a field name that starts at `k`: the index of the '}', ':'
   * or '!' that ends it, skipping over `[...]`; None when a '{' comes first or the
   * string ends.
   */
  function FieldNameEnd(s: string, k: nat): (r: Option<nat>)
    requires k <= |s|
    ensures r.Some? ==> k <= r.value < |s| && s[r.value] in {'}', ':', '!'}
    ensures r.Some? ==> ColonAfterBracket(s[k..r.value])
    decreases |s| - k
  {
    if k == |s| || s[k] == '{' then None
    else if s[k] == '[' then
      var close := IndexFrom(s, k + 1, ']');
      if close == |s| then None
      else
        var r := FieldNameEnd(s, close + 1);
        assert r.Some? ==> forall m :: 0 < m < r.value - k ==> s[k..r.value][..m][0] == '[';
        r
    else if s[k] in {'}', ':', '!'} then Some(k)
    else
      var r := FieldNameEnd(s, k + 1);
      assert r.Some? ==> forall m :: 1 <= m < r.value - k ==> s[k..r.value][..m][1..] == s[k + 1..r.value][..m - 1];
      r
  }

  /**
   * The scan for the end of a format spec from `q`, with `depth` braces open: the index
   * of the '}' that closes the field, or None when the string ends first.
   */
  function SpecEnd(s: string, q: nat, depth: nat): (r: Option<nat>)
    requires q <= |s| && depth > 0
    ensures r.Some? ==> q <= r.value < |s| && s[r.value] == '}'
    decreases |s| - q
  {
    if q == |s| then None
    else if s[q] == '{' then SpecEnd(s, q + 1, depth + 1)
    else if s[q] == '}' then (if depth == 1 then Some(q) else SpecEnd(s, q + 1, depth - 1))
    else SpecEnd(s, q + 1, depth)
  }

  /**
   * A field whose name starts at `k` (just after its '{'): the field and the index just
   * after its closing '}', or None on a syntax error.
   */
  function ParseField(s: string, k: nat): (r: Option<(Field, nat)>)
    requires k <= |s|
    ensures r.Some? ==> k < r.value.1 <= |s| && r.value.0.name <= s[k..]
    ensures r.Some? ==> ColonAfterBracket(r.value.0.name)
  {
    match FieldNameEnd(s, k)
    case None => None
    case Some(t) =>
      var name := s[k..t];
      if s[t] == '}' then Some((Field(name, None, None), t + 1))
      else if s[t] == ':' then
        match SpecEnd(s, t + 1, 1)
        case None => None
        case Some(e) => Some((Field(name, None, Some(s[t + 1..e])), e + 1))
      else if t + 2 >= |s| || (s[t + 2] != '}' && s[t + 2] != ':') then None
      else if s[t + 2] == '}' then Some((Field(name, Some(s[t + 1]), None), t + 3))
      else
        match SpecEnd(s, t + 3, 1)
        case None => None
        case Some(e) => Some((Field(name, Some(s[t + 1]), Some(s[t + 3..e])), e + 1))
  }

  function Prepend(p: Piece, rest: Option<seq<Piece>>): Option<seq<Piece>> {
    match rest
    case None => None
    case Some(ps) => Some([p] + ps)
  }

  /** Every field name in the pieces keeps its ':' behind a '['. */
  predicate NamesScanned(ps: seq<Piece>) {
    forall n :: 0 <= n < |ps| && ps[n].field.Some? ==> ColonAfterBracket(ps[n].field.value.name)
  }

  /**
   * The pieces of `s[i..]`: text up to the next brace; a doubled brace is literal text
   * holding one brace; a lone '}' or a '{' at the very end is an error; any other '{'
   * opens a field. None stands for the ValueError the parser raises.
   */
  function ParseFrom(s: string, i: nat): (r: Option<seq<Piece>>)
    requires i <= |s|
    ensures r.Some? ==> NamesScanned(r.value)
    decreases |s| - i
  {
    if i == |s| then Some([])
    else
      var j := NextBrace(s, i);
      if j == |s| then Some([Piece(s[i..], None)])
      else if j + 1 < |s| && s[j + 1] == s[j] then Prepend(Piece(s[i..j + 1], None), ParseFrom(s, j + 2))
      else if s[j] == '}' || j + 1 == |s| then None
      else
        match ParseField(s, j + 1)
        case None => None
        case Some((f, next)) => Prepend(Piece(s[i..j], Some(f)), ParseFrom(s, next))
  }

  function ParseFormat(s: string): Option<seq<Piece>> {
    ParseFrom(s, 0)
  }

  /** The non-empty field names, in order. */
  function FieldNames(ps: seq<Piece>): (names: seq<string>)
    ensures forall f <- names :: f != []
    ensures NamesScanned(ps) ==> forall f <- names :: ColonAfterBracket(f)
  {
    if ps == [] then []
    else
      var head := if ps[0].field.Some? && ps[0].field.value.name != [] then [ps[0].field.value.name] else [];
      assert NamesScanned(ps) ==> NamesScanned(ps[1..]) by {
        forall n | 0 <= n < |ps| - 1 ensures ps[1..][n] == ps[n + 1] { }
      }
      head + FieldNames(ps[1..])
  }

  /** A piece whose field has a non-empty name. */
  predicate NamedField(p: Piece) {
    p.field.Some? && p.field.value.name != []
  }

  /** A name is listed exactly when some piece's field carries it and it is not empty. */
  lemma {:induction false} FieldNamesMembers(ps: seq<Piece>)
    ensures forall x :: x in FieldNames(ps) <==>
      exists n :: 0 <= n < |ps| && NamedField(ps[n]) && ps[n].field.value.name == x
    decreases |ps|
  {
    if ps != [] {
      FieldNamesMembers(ps[1..]);
      assert forall n :: 1 <= n < |ps| ==> ps[n] == ps[1..][n - 1];
    }
  }

  /** The names of two runs of pieces, one after the other: the field names keep their order. */
  lemma {:induction false} FieldNamesConcat(a: seq<Piece>, b: seq<Piece>)
    ensures FieldNames(a + b) == FieldNames(a) + FieldNames(b)
    decreases |a|
  {
    if a == [] {
      assert a + b == b;
    } else {
      FieldNamesConcat(a[1..], b);
      AppendTail(a, b);
    }
  }

  // ---------------------------------------------------------------------------
  // Writing pieces back as a template
  // ---------------------------------------------------------------------------

  /** Literal text as a template writes it: every brace doubled. */
  function Escape(lit: string): (r: string)
    ensures |r| >= |lit|
  {
    if lit == [] then []
    else (if lit[0] in Braces then [lit[0], lit[0]] else [lit[0]]) + Escape(lit[1..])
  }

  /** `{name}`, `{name!c}`, `{name:spec}` or `{name!c:spec}`. */
  function RenderField(f: Field): string {
    "{" + f.name + ConversionText(f.conversion) + SpecText(f.spec) + "}"
  }

  function ConversionText(conversion: Option<char>): string {
    match conversion
    case None => []
    case Some(c) => ['!', c]
  }

  function SpecText(spec: Option<string>): string {
    match spec
    case None => []
    case Some(sp) => ":" + sp
  }

  function Render(ps: seq<Piece>): string {
    if ps == [] then []
    else Escape(ps[0].literal) + (match ps[0].field case None => [] case Some(f) => RenderField(f)) + Render(ps[1..])
  }

  lemma {:induction false} EscapeBraceFree(lit: string)
    requires forall m :: 0 <= m < |lit| ==> lit[m] !in Braces
    ensures Escape(lit) == lit
    decreases |lit|
  {
    if lit != [] {
      EscapeBraceFree(lit[1..]);
    }
  }

  /** Brace-free text followed by one brace is written with that brace doubled. */
  lemma {:induction false} EscapeThenBrace(lit: string, c: char)
    requires forall m :: 0 <= m < |lit| ==> lit[m] !in Braces
    requires c in Braces
    ensures Escape(lit + [c]) == lit + [c, c]
    decreases |lit|
  {
    if lit == [] {
      assert Escape([c]) == [c, c] + Escape([]);
    } else {
      assert (lit + [c])[1..] == lit[1..] + [c];
      EscapeThenBrace(lit[1..], c);
    }
  }

  /** Every template the parser accepts is written back, character for character, by `Render`. */
  lemma ParseRenderRoundTrip(s: string)
    requires ParseFormat(s).Some?
    ensures Render(ParseFormat(s).value) == s
  {
    RenderParsedFrom(s, 0);
  }

  lemma {:induction false} RenderParsedFrom(s: string, i: nat)
    requires i <= |s| && ParseFrom(s, i).Some?
    ensures Render(ParseFrom(s, i).value) == s[i..]
    decreases |s| - i
  {
    if i < |s| {
      var j := NextBrace(s, i);
      if j == |s| {
        ParseLiteralTail(s, i);
        EscapeBraceFree(s[i..]);
        assert Render([Piece(s[i..], None)]) == Escape(s[i..]) + Render([]);
      } else if j + 1 < |s| && s[j + 1] == s[j] {
        var rest := DoubledBraceStep(s, i, j);
        RenderParsedFrom(s, j + 2);
        EscapeDoubledBrace(s, i, j);
        RenderDoubledBrace(s, i, j, rest);
      } else {
        var f, next, rest := FieldStep(s, i, j);
        RenderParsedFrom(s, next);
        RenderFieldPiece(s, i, j, f, next, rest);
      }
    }
  }

  lemma DoubledBraceStep(s: string, i: nat, j: nat) returns (rest: seq<Piece>)
    requires i < |s| && ParseFrom(s, i).Some?
    requires j == NextBrace(s, i) && j + 1 < |s| && s[j + 1] == s[j]
    ensures ParseFrom(s, j + 2) == Some(rest)
    ensures ParseFrom(s, i) == Some([Piece(s[i..j + 1], None)] + rest)
  {
    rest := ParseFrom(s, j + 2).value;
  }

  lemma FieldStep(s: string, i: nat, j: nat) returns (f: Field, next: nat, rest: seq<Piece>)
    requires i < |s| && ParseFrom(s, i).Some?
    requires j == NextBrace(s, i) && j < |s| && !(j + 1 < |s| && s[j + 1] == s[j])
    ensures j < next <= |s| && RenderField(f) == s[j..next]
    ensures ParseFrom(s, next) == Some(rest)
    ensures ParseFrom(s, i) == Some([Piece(s[i..j], Some(f))] + rest)
  {
    f, next := ParseField(s, j + 1).value.0, ParseField(s, j + 1).value.1;
    rest := ParseFrom(s, next).value;
    ParseFieldRendered(s, j + 1);
  }

  lemma RenderDoubledBrace(s: string, i: nat, j: nat, rest: seq<Piece>)
    requires i <= j && j + 2 <= |s|
    requires Escape(s[i..j + 1]) == s[i..j + 2]
    requires Render(rest) == s[j + 2..]
    ensures Render([Piece(s[i..j + 1], None)] + rest) == s[i..]
  {
    RenderLiteralCons(s[i..j + 1], rest);
    SliceSplitTail(s, i, j + 2);
  }

  /** Brace-free text and a doubled brace: the literal keeps one brace, written back as two. */
  lemma EscapeDoubledBrace(s: string, i: nat, j: nat)
    requires i <= j && j + 1 < |s| && s[j + 1] == s[j] && s[j] in Braces
    requires forall m :: i <= m < j ==> s[m] !in Braces
    ensures Escape(s[i..j + 1]) == s[i..j + 2]
  {
    var lit := s[i..j];
    assert s[i..j + 1] == lit + [s[j]];
    EscapeThenBrace(lit, s[j]);
    assert s[i..j + 2] == lit + [s[j], s[j + 1]];
  }

  lemma RenderFieldPiece(s: string, i: nat, j: nat, f: Field, next: nat, rest: seq<Piece>)
    requires i <= j < next <= |s|
    requires forall m :: i <= m < j ==> s[m] !in Braces
    requires RenderField(f) == s[j..next]
    requires Render(rest) == s[next..]
    ensures Render([Piece(s[i..j], Some(f))] + rest) == s[i..]
  {
    EscapeBraceFree(s[i..j]);
    RenderFieldCons(s[i..j], f, rest);
    SliceSplitTail(s, i, j);
    SliceSplitTail(s, j, next);
  }

  lemma RenderLiteralCons(lit: string, rest: seq<Piece>)
    ensures Render([Piece(lit, None)] + rest) == Escape(lit) + Render(rest)
  {
    assert ([Piece(lit, None)] + rest)[1..] == rest;
  }

  lemma RenderFieldCons(lit: string, f: Field, rest: seq<Piece>)
    ensures Render([Piece(lit, Some(f))] + rest) == Escape(lit) + RenderField(f) + Render(rest)
  {
    assert ([Piece(lit, Some(f))] + rest)[1..] == rest;
  }

  /** A field the parser reads from just after a '{' is written back as the text it was read from. */
  lemma ParseFieldRendered(s: string, k: nat)
    requires 1 <= k <= |s| && s[k - 1] == '{'
    requires ParseField(s, k).Some?
    ensures RenderField(ParseField(s, k).value.0) == s[k - 1..ParseField(s, k).value.1]
  {
    var t := FieldNameEnd(s, k).value;
    if s[t] == '}' || s[t] == ':' {
      NamedFieldRendered(s, k, t);
    } else {
      ConvertedFieldRendered(s, k, t);
    }
  }

  lemma NamedFieldRendered(s: string, k: nat, t: nat)
    requires 1 <= k <= |s| && s[k - 1] == '{'
    requires FieldNameEnd(s, k) == Some(t) && (s[t] == '}' || s[t] == ':')
    requires ParseField(s, k).Some?
    ensures RenderField(ParseField(s, k).value.0) == s[k - 1..ParseField(s, k).value.1]
  {
    if s[t] == '}' {
      assert ParseField(s, k) == Some((Field(s[k..t], None, None), t + 1));
      FieldText(s, k, t, t, Field(s[k..t], None, None), t + 1);
    } else {
      var e := SpecEnd(s, t + 1, 1).value;
      assert ParseField(s, k) == Some((Field(s[k..t], None, Some(s[t + 1..e])), e + 1));
      assert s[t..e] == [':'] + s[t + 1..e];
      FieldText(s, k, t, t, Field(s[k..t], None, Some(s[t + 1..e])), e + 1);
    }
  }

  lemma ConvertedFieldRendered(s: string, k: nat, t: nat)
    requires 1 <= k <= |s| && s[k - 1] == '{'
    requires FieldNameEnd(s, k) == Some(t) && s[t] == '!'
    requires ParseField(s, k).Some?
    ensures RenderField(ParseField(s, k).value.0) == s[k - 1..ParseField(s, k).value.1]
  {
    if s[t + 2] == '}' {
      assert ParseField(s, k) == Some((Field(s[k..t], Some(s[t + 1]), None), t + 3));
      FieldText(s, k, t, t + 2, Field(s[k..t], Some(s[t + 1]), None), t + 3);
    } else {
      ConvertedSpecFieldRendered(s, k, t);
    }
  }

  lemma ConvertedSpecFieldRendered(s: string, k: nat, t: nat)
    requires 1 <= k <= |s| && s[k - 1] == '{'
    requires FieldNameEnd(s, k) == Some(t) && s[t] == '!' && t + 2 < |s| && s[t + 2] == ':'
    requires ParseField(s, k).Some?
    ensures RenderField(ParseField(s, k).value.0) == s[k - 1..ParseField(s, k).value.1]
  {
    var e := ConvertedSpecParsed(s, k, t);
    var f := Field(s[k..t], Some(s[t + 1]), Some(s[t + 3..e]));
    assert s[t + 2..e] == [':'] + s[t + 3..e];
    FieldText(s, k, t, t + 2, f, e + 1);
  }

  lemma ConvertedSpecParsed(s: string, k: nat, t: nat) returns (e: nat)
    requires k <= |s| && FieldNameEnd(s, k) == Some(t) && s[t] == '!' && t + 2 < |s| && s[t + 2] == ':'
    requires ParseField(s, k).Some?
    ensures t + 3 <= e < |s| && s[e] == '}'
    ensures ParseField(s, k) == Some((Field(s[k..t], Some(s[t + 1]), Some(s[t + 3..e])), e + 1))
  {
    e := SpecEnd(s, t + 3, 1).value;
  }

  /** The '{' at `k - 1`, the name up to `t`, the conversion up to `at`, the spec, and the '}' at `next - 1`. */
  lemma FieldText(s: string, k: nat, t: nat, at: nat, f: Field, next: nat)
    requires 1 <= k <= t <= at < next <= |s| && s[k - 1] == '{' && s[next - 1] == '}'
    requires f.name == s[k..t] && ConversionText(f.conversion) == s[t..at] && SpecText(f.spec) == s[at..next - 1]
    ensures RenderField(f) == s[k - 1..next]
  {
    SliceSplit(s, at, next - 1, next);
    assert s[next - 1..next] == "}";
    SliceSplit(s, t, at, next);
    SliceSplit(s, k, t, next);
    SliceSplit(s, k - 1, k, next);
    assert s[k - 1..k] == "{";
    Concat5(s[k - 1..k], s[k..t], s[t..at], s[at..next - 1], s[next - 1..next]);
  }

  /**
   * Brace-free literal text, and a field with a name of plain characters, no conversion
   * and a brace-free spec if any. A piece without a field is the last one and is not empty.
   */
  predicate PlainPiece(p: Piece, last: bool) {
    && (forall c <- p.literal :: c !in Braces)
    && match p.field
       case None => last && p.literal != []
       case Some(f) =>
         && f.conversion.None?
         && (forall c <- f.name :: c !in NameStops)
         && (f.spec.None? || forall c <- f.spec.value :: c !in Braces)
  }

  predicate PlainPieces(ps: seq<Piece>) {
    forall n :: 0 <= n < |ps| ==> PlainPiece(ps[n], n == |ps| - 1)
  }

  /** Writing plain pieces as a template and parsing it gives the same pieces back. */
  lemma RenderParseRoundTrip(ps: seq<Piece>)
    requires PlainPieces(ps)
    ensures ParseFormat(Render(ps)) == Some(ps)
  {
    ParseRenderedFrom(Render(ps), 0, ps);
  }

  lemma {:induction false} ParseRenderedFrom(s: string, i: nat, ps: seq<Piece>)
    requires i <= |s| && s[i..] == Render(ps) && PlainPieces(ps)
    ensures ParseFrom(s, i) == Some(ps)
    decreases |ps|
  {
    if ps == [] {
      assert |s[i..]| == 0;
    } else {
      var p, rest := ps[0], ps[1..];
      PlainPiecesCons(ps);
      match p.field
      case None =>
        LiteralPlaced(s, i, p.literal);
      case Some(f) =>
        var next := FieldPlaced(s, i, p.literal, f, Render(rest));
        ParseRenderedFrom(s, next, rest);
        PrependParsed(ParseFrom(s, i), Piece(p.literal, Some(f)), ParseFrom(s, next), rest, ps);
    }
  }

  /** The first of some plain pieces, and the rest of them, as the parse sees them. */
  lemma PlainPiecesCons(ps: seq<Piece>)
    requires ps != [] && PlainPieces(ps)
    ensures PlainPiece(ps[0], |ps| == 1) && PlainPieces(ps[1..])
    ensures Escape(ps[0].literal) == ps[0].literal
    ensures ps[0].field.None? ==> ps == [Piece(ps[0].literal, None)] && Render(ps[1..]) == []
    ensures ps[0].field.Some? ==> ps == [Piece(ps[0].literal, ps[0].field)] + ps[1..]
  {
    var rest := ps[1..];
    assert PlainPiece(ps[0], |ps| == 1);
    forall n | 0 <= n < |rest| ensures PlainPiece(rest[n], n == |rest| - 1) {
      assert rest[n] == ps[n + 1];
    }
    EscapeBraceFree(ps[0].literal);
  }

  lemma PrependParsed(x: Option<seq<Piece>>, p: Piece, y: Option<seq<Piece>>, rest: seq<Piece>, ps: seq<Piece>)
    requires x == Prepend(p, y) && y == Some(rest) && ps == [p] + rest
    ensures x == Some(ps)
  {
  }

  lemma LiteralPlaced(s: string, i: nat, lit: string)
    requires i <= |s| && s[i..] == Escape(lit) + [] + Render([]) && Escape(lit) == lit
    requires lit != [] && forall c <- lit :: c !in Braces
    ensures ParseFrom(s, i) == Some([Piece(lit, None)])
  {
    assert s[i..] == lit;
    assert forall m :: i <= m < |s| ==> s[m] == lit[m - i];
    ParseLiteralTail(s, i);
  }

  /** `s[i..]` starts with `x`, then `post`: where each of them lies in `s`. */
  lemma Peel<T>(s: seq<T>, i: nat, x: seq<T>, post: seq<T>)
    requires i <= |s| && s[i..] == x + post
    ensures i + |x| <= |s| && s[i..i + |x|] == x && s[i + |x|..] == post
    ensures forall m :: i <= m < i + |x| ==> s[m] == x[m - i]
  {
    assert s[i..][..|x|] == x;
    assert s[i..][|x|..] == post;
  }

  /** A plain field after brace-free text is parsed as that piece, and the parse goes on after its '}'. */
  lemma FieldPlaced(s: string, i: nat, lit: string, f: Field, tail: string) returns (next: nat)
    requires i <= |s| && s[i..] == Escape(lit) + RenderField(f) + tail && Escape(lit) == lit
    requires forall c <- lit :: c !in Braces
    requires f.conversion.None? && forall c <- f.name :: c !in NameStops
    requires f.spec.None? || forall c <- f.spec.value :: c !in Braces
    ensures next <= |s| && s[next..] == tail
    ensures ParseFrom(s, i) == Prepend(Piece(lit, Some(f)), ParseFrom(s, next))
  {
    match f.spec
    case None =>
      assert RenderField(f) == ['{'] + f.name + ['}'];
      next := NamePlaced(s, i, lit, f.name, tail);
    case Some(sp) =>
      assert RenderField(f) == ['{'] + f.name + [':'] + sp + ['}'];
      next := SpecPlaced(s, i, lit, f.name, sp, tail);
  }

  lemma NamePlaced(s: string, i: nat, lit: string, name: string, tail: string) returns (next: nat)
    requires i <= |s| && s[i..] == lit + (['{'] + name + ['}']) + tail
    requires forall c <- lit :: c !in Braces
    requires forall c <- name :: c !in NameStops
    ensures next <= |s| && s[next..] == tail
    ensures ParseFrom(s, i) == Prepend(Piece(lit, Some(Field(name, None, None))), ParseFrom(s, next))
  {
    var j := i + |lit|;
    var t := j + 1 + |name|;
    PlacedBetween(s, i, lit, '{', name, '}', tail);
    next := t + 1;
    NameFieldAs(s, i, j, t, lit, name, next);
  }

  lemma SpecPlaced(s: string, i: nat, lit: string, name: string, sp: string, tail: string) returns (next: nat)
    requires i <= |s| && s[i..] == lit + (['{'] + name + [':'] + sp + ['}']) + tail
    requires forall c <- lit :: c !in Braces
    requires forall c <- name :: c !in NameStops
    requires forall c <- sp :: c !in Braces
    ensures next <= |s| && s[next..] == tail
    ensures ParseFrom(s, i) == Prepend(Piece(lit, Some(Field(name, None, Some(sp)))), ParseFrom(s, next))
  {
    var j := i + |lit|;
    var t := j + 1 + |name|;
    var e := t + 1 + |sp|;
    SpecLayout(s, i, lit, name, sp, tail);
    next := e + 1;
    SpecFieldAs(s, i, j, t, e, lit, name, sp, next);
  }

  /** Where the literal, the '{', the name, the ':', the spec and the '}' of a spec field lie in `s`. */
  lemma SpecLayout(s: string, i: nat, lit: string, name: string, sp: string, tail: string)
    requires i <= |s| && s[i..] == lit + (['{'] + name + [':'] + sp + ['}']) + tail
    requires forall c <- lit :: c !in Braces
    requires forall c <- name :: c !in NameStops
    requires forall c <- sp :: c !in Braces
    ensures var j := i + |lit|; var t := j + 1 + |name|; var e := t + 1 + |sp|;
      && e < |s| && s[j] == '{' && s[t] == ':' && s[e] == '}'
      && (forall m :: i <= m < j ==> s[m] !in Braces)
      && (forall m :: j < m < t ==> s[m] !in NameStops)
      && (forall m :: t < m < e ==> s[m] !in Braces)
      && s[i..j] == lit && s[j + 1..t] == name && s[t + 1..e] == sp
      && s[e + 1..] == tail
  {
    var j := i + |lit|;
    var t := j + 1 + |name|;
    assert ['{'] + name + [':'] + sp + ['}'] == ['{'] + name + [':'] + (sp + ['}']);
    PlacedBetween(s, i, lit, '{', name, ':', sp + ['}'] + tail);
    AppendAssoc(sp, ['}'], tail);
    PlacedBetween(s, t, [], ':', sp, '}', tail);
  }

  /** `ParsePlainField`, with the pieces of text it finds given by name. */
  lemma NameFieldAs(s: string, i: nat, j: nat, t: nat, lit: string, name: string, next: nat)
    requires i <= j < t < |s| && s[j] == '{' && s[t] == '}' && next == t + 1
    requires forall m :: i <= m < j ==> s[m] !in Braces
    requires forall m :: j < m < t ==> s[m] !in NameStops
    requires s[i..j] == lit && s[j + 1..t] == name
    ensures ParseFrom(s, i) == Prepend(Piece(lit, Some(Field(name, None, None))), ParseFrom(s, next))
  {
    ParsePlainField(s, i, j, t);
  }

  /** `ParseSpecField`, with the pieces of text it finds given by name. */
  lemma SpecFieldAs(s: string, i: nat, j: nat, t: nat, e: nat, lit: string, name: string, sp: string, next: nat)
    requires i <= j < t < e < |s| && s[j] == '{' && s[t] == ':' && s[e] == '}' && next == e + 1
    requires forall m :: i <= m < j ==> s[m] !in Braces
    requires forall m :: j < m < t ==> s[m] !in NameStops
    requires forall m :: t < m < e ==> s[m] !in Braces
    requires s[i..j] == lit && s[j + 1..t] == name && s[t + 1..e] == sp
    ensures ParseFrom(s, i) == Prepend(Piece(lit, Some(Field(name, None, Some(sp)))), ParseFrom(s, next))
  {
    ParseSpecField(s, i, j, t, e);
  }

  /** `s[i..]` is `a`, the single element `b`, `c`, the single element `d`, then `tail`: where each lies in `s`. */
  lemma PlacedBetween<T>(s: seq<T>, i: nat, a: seq<T>, b: T, c: seq<T>, d: T, tail: seq<T>)
    requires i <= |s| && s[i..] == a + ([b] + c + [d]) + tail
    ensures i + |a| + |c| + 2 <= |s|
    ensures s[i..i + |a|] == a && s[i + |a|] == b
    ensures s[i + |a| + 1..i + |a| + 1 + |c|] == c && s[i + |a| + 1 + |c|] == d
    ensures s[i + |a| + |c| + 2..] == tail
    ensures forall m :: i <= m < i + |a| ==> s[m] == a[m - i]
    ensures forall m :: i + |a| < m < i + |a| + 1 + |c| ==> s[m] == c[m - i - |a| - 1]
  {
    var j := i + |a|;
    Peel(s, i, a, ([b] + c + [d]) + tail);
    assert ([b] + c + [d]) + tail == [b] + (c + ([d] + tail));
    Peel(s, j, [b], c + ([d] + tail));
    Peel(s, j + 1, c, [d] + tail);
    Peel(s, j + 1 + |c|, [d], tail);
  }

  lemma Concat5<T>(a: seq<T>, b: seq<T>, c: seq<T>, d: seq<T>, e: seq<T>)
    ensures a + (b + (c + (d + e))) == a + b + c + d + e
  {
  }

  lemma SliceSplitTail(s: string, a: nat, b: nat)
    requires a <= b <= |s|
    ensures s[a..] == s[a..b] + s[b..]
  {
  }

  lemma SliceSplit(s: string, a: nat, b: nat, c: nat)
    requires a <= b <= c <= |s|
    ensures s[a..c] == s[a..b] + s[b..c]
  {
  }


  // ---------------------------------------------------------------------------
  // validate_format
  // ---------------------------------------------------------------------------

  /** The class `[\/:*?"<>|]`; the backslash in it only escapes the '/'. */
  const IllegalChars: set<char> := {'/', ':', '*', '?', '"', '<', '>', '|'}

  predicate HasIllegalChar(s: string) {
    exists m :: 0 <= m < |s| && s[m] in IllegalChars
  }

  predicate IdentStart(c: char) {
    'a' <= c <= 'z' || 'A' <= c <= 'Z' || c == '_'
  }

  predicate IdentChar(c: char) {
    IdentStart(c) || '0' <= c <= '9'
  }

  /** `[a-zA-Z_][a-zA-Z0-9_]*` matches the whole string. */
  predicate IsIdentifier(f: string) {
    |f| > 0 && IdentStart(f[0]) && forall m :: 1 <= m < |f| ==> IdentChar(f[m])
  }

  /** `[a-zA-Z_][a-zA-Z0-9_]*(?::[^{}]*)?` matches the whole string. */
  predicate FieldNameMatches(f: string) {
    IsIdentifier(f) ||
    exists k :: 0 < k < |f| && f[k] == ':' && IsIdentifier(f[..k]) && (forall m :: k < m < |f| ==> f[m] !in Braces)
  }

  /** A template names the event or the default date somewhere in its text. */
  predicate HasRequiredTag(s: string) {
    Contains("{event}", s) || Contains("{date}", s)
  }

  /**
   * `validate_format(s)` as written: no character of the illegal class, a template the
   * parser accepts, `{event}` or `{date}` in the text, and every field name matching the
   * identifier pattern.
   */
  predicate ValidateFormat(s: string) {
    !HasIllegalChar(s) &&
    ParseFormat(s).Some? &&
    HasRequiredTag(s) &&
    forall f <- FieldNames(ParseFormat(s).value) :: FieldNameMatches(f)
  }

  // ---------------------------------------------------------------------------
  // Properties of validate_format
  // ---------------------------------------------------------------------------

  /** Any template with "{date:" in it is rejected: ':' is in the illegal class. */
  lemma DateSpecTemplatesRejected(s: string)
    requires Contains("{date:", s)
    ensures !ValidateFormat(s)
  {
    ContainsWitness("{date:", s);
    var i :| OccursAt("{date:", s, i);
    assert s[i..i + 6][5] == s[i + 5];
  }

  /** An accepted template never has a date token, so folder names always use the default "%Y%m%d". */
  lemma ValidatedFormatsUseDefaultDate(s: string)
    requires ValidateFormat(s)
    ensures DateToken(s) == None
  {
    if DateToken(s).Some? {
      DateTokenHasColon(s);
    }
  }

  /** The ':'-suffix of the field-name pattern never applies: every accepted field name is a plain identifier. */
  lemma ValidatedFieldNamesAreIdentifiers(s: string)
    requires ValidateFormat(s)
    ensures forall f <- FieldNames(ParseFormat(s).value) :: IsIdentifier(f)
  {
  }

  // ---------------------------------------------------------------------------
  // Parsing simple templates
  // ---------------------------------------------------------------------------

  lemma NextBraceAt(s: string, i: nat, j: nat)
    requires i <= j <= |s|
    requires j < |s| ==> s[j] in Braces
    requires forall m :: i <= m < j ==> s[m] !in Braces
    ensures NextBrace(s, i) == j
    decreases j - i
  {
    if i < j {
      NextBraceAt(s, i + 1, j);
    }
  }

  lemma FieldNameEndAt(s: string, k: nat, t: nat)
    requires k <= t < |s| && s[t] in {'}', ':', '!'}
    requires forall m :: k <= m < t ==> s[m] !in NameStops
    ensures FieldNameEnd(s, k) == Some(t)
    decreases t - k
  {
    if k < t {
      FieldNameEndAt(s, k + 1, t);
    }
  }

  lemma SpecEndAt(s: string, q: nat, e: nat)
    requires q <= e < |s| && s[e] == '}'
    requires forall m :: q <= m < e ==> s[m] !in Braces
    ensures SpecEnd(s, q, 1) == Some(e)
    decreases e - q
  {
    if q < e {
      SpecEndAt(s, q + 1, e);
    }
  }

  /** Brace-free text up to the end is one literal piece. */
  lemma ParseLiteralTail(s: string, i: nat)
    requires i < |s|
    requires forall m :: i <= m < |s| ==> s[m] !in Braces
    ensures ParseFrom(s, i) == Some([Piece(s[i..], None)])
  {
    NextBraceAt(s, i, |s|);
  }

  /** Brace-free text `s[i..j]`, then a field `{name}` whose name ends at `t`. */
  lemma ParsePlainField(s: string, i: nat, j: nat, t: nat)
    requires i <= j < t < |s| && s[j] == '{' && s[t] == '}'
    requires forall m :: i <= m < j ==> s[m] !in Braces
    requires forall m :: j < m < t ==> s[m] !in NameStops
    ensures ParseFrom(s, i) == Prepend(Piece(s[i..j], Some(Field(s[j + 1..t], None, None))), ParseFrom(s, t + 1))
  {
    NextBraceAt(s, i, j);
    FieldOpensAt(s, j, t);
    PlainFieldParsed(s, j, t);
  }

  /** Brace-free text `s[i..j]`, then a field `{name:spec}` with ':' at `t` and a brace-free spec closed at `e`. */
  lemma ParseSpecField(s: string, i: nat, j: nat, t: nat, e: nat)
    requires i <= j < t < e < |s| && s[j] == '{' && s[t] == ':' && s[e] == '}'
    requires forall m :: i <= m < j ==> s[m] !in Braces
    requires forall m :: j < m < t ==> s[m] !in NameStops
    requires forall m :: t < m < e ==> s[m] !in Braces
    ensures ParseFrom(s, i) == Prepend(Piece(s[i..j], Some(Field(s[j + 1..t], None, Some(s[t + 1..e])))), ParseFrom(s, e + 1))
  {
    NextBraceAt(s, i, j);
    FieldOpensAt(s, j, t);
    SpecFieldParsed(s, j, t, e);
  }

  /** A '{' followed by a name that ends at `t` is not a doubled brace. */
  lemma FieldOpensAt(s: string, j: nat, t: nat)
    requires j < t < |s| && s[j] == '{' && s[t] != '{'
    requires forall m :: j < m < t ==> s[m] !in NameStops
    ensures j + 1 < |s| && s[j + 1] != s[j]
  {
    if j + 1 < t {
      assert s[j + 1] !in NameStops;
    }
  }

  lemma PlainFieldParsed(s: string, j: nat, t: nat)
    requires j < t < |s| && s[t] == '}'
    requires forall m :: j < m < t ==> s[m] !in NameStops
    ensures ParseField(s, j + 1) == Some((Field(s[j + 1..t], None, None), t + 1))
  {
    FieldNameEndAt(s, j + 1, t);
  }

  lemma SpecFieldParsed(s: string, j: nat, t: nat, e: nat)
    requires j < t < e < |s| && s[t] == ':' && s[e] == '}'
    requires forall m :: j < m < t ==> s[m] !in NameStops
    requires forall m :: t < m < e ==> s[m] !in Braces
    ensures ParseField(s, j + 1) == Some((Field(s[j + 1..t], None, Some(s[t + 1..e])), e + 1))
  {
    FieldNameEndAt(s, j + 1, t);
    SpecEndAt(s, t + 1, e);
    assert s[t] != '}';
  }

  /**
   * A field whose name runs into the end of the template or into a '{' is a syntax
   * error, whatever follows.
   */
  lemma UnclosedFieldRejected(text: string, name: string, tail: string)
    requires forall c <- text :: c !in Braces
    requires forall c <- name :: c !in NameStops
    requires tail == [] || (tail[0] == '{' && name != [])
    ensures ParseFormat(text + "{" + name + tail) == None
    ensures !ValidateFormat(text + "{" + name + tail)
  {
    var s := text + "{" + name + tail;
    var j := |text|;
    var stop := j + 1 + |name|;
    UnclosedShape(text, name, tail);
    NextBraceAt(s, 0, j);
    if j + 1 < |s| {
      UnclosedNameScan(s, j + 1, stop);
    }
  }

  lemma UnclosedShape(text: string, name: string, tail: string)
    requires forall c <- text :: c !in Braces
    requires forall c <- name :: c !in NameStops
    requires tail == [] || (tail[0] == '{' && name != [])
    ensures var s := text + "{" + name + tail;
      var j := |text|;
      && s[j] == '{'
      && (forall m :: 0 <= m < j ==> s[m] !in Braces)
      && (forall m :: j < m < j + 1 + |name| ==> s[m] !in NameStops)
      && (j + 1 + |name| == |s| || s[j + 1 + |name|] == '{')
      && (j + 1 < |s| ==> s[j + 1] != '{')
  {
    var s := text + "{" + name + tail;
    var j := |text|;
    assert forall m :: 0 <= m < j ==> s[m] == text[m];
    assert forall m :: j < m < j + 1 + |name| ==> s[m] == name[m - j - 1];
  }

  /** The scan of a name that meets only name characters and then a '{' or the end finds no end. */
  lemma UnclosedNameScan(s: string, k: nat, stop: nat)
    requires k <= stop <= |s|
    requires forall m :: k <= m < stop ==> s[m] !in NameStops
    requires stop == |s| || s[stop] == '{'
    ensures FieldNameEnd(s, k) == None
    decreases stop - k
  {
    if k < stop {
      UnclosedNameScan(s, k + 1, stop);
    }
  }

  /** A '}' with no field open and not doubled is a syntax error, whatever follows. */
  lemma StrayCloseBraceRejected(text: string, tail: string)
    requires forall c <- text :: c !in Braces
    requires tail == [] || tail[0] != '}'
    ensures ParseFormat(text + "}" + tail) == None
    ensures !ValidateFormat(text + "}" + tail)
  {
    var s := text + "}" + tail;
    assert forall m :: 0 <= m < |text| ==> s[m] == text[m];
    assert |text| + 1 < |s| ==> s[|text| + 1] == tail[0];
    NextBraceAt(s, 0, |text|);
  }

  /** `{date}<sep>{event}` parses to the two fields, the separator as the second one's literal. */
  lemma DefaultTemplateParses(sep: string)
    requires forall c <- sep :: c !in Braces
    ensures ParseFormat("{date}" + sep + "{event}")
         == Some([Piece([], Some(Field("date", None, None))), Piece(sep, Some(Field("event", None, None)))])
  {
    var s := "{date}" + sep + "{event}";
    assert s[..6] == "{date}";
    assert s[6..] == sep + "{event}";
    DefaultParsesFrom(s, sep);
  }

  lemma DefaultParsesFrom(s: string, sep: string)
    requires forall c <- sep :: c !in Braces
    requires 6 <= |s| && s[..6] == "{date}" && s[6..] == sep + "{event}"
    ensures ParseFrom(s, 0)
         == Some([Piece([], Some(Field("date", None, None))), Piece(sep, Some(Field("event", None, None)))])
  {
    EventTailParses(s, 6, sep);
    var event := Piece(sep, Some(Field("event", None, None)));
    DefaultHead(s);
    ParsePlainField(s, 0, 0, 5);
    var date := Piece(s[0..0], Some(Field(s[1..5], None, None)));
    assert [date] + [event] == [date, event];
  }

  lemma DefaultHead(s: string)
    requires 6 <= |s| && s[..6] == "{date}"
    ensures s[0] == '{' && s[5] == '}' && s[1..5] == "date" && s[0..0] == []
    ensures forall m :: 0 < m < 5 ==> s[m] !in NameStops
  {
    assert forall m :: 0 <= m < 6 ==> s[m] == "{date}"[m];
    assert s[1..5] == s[..6][1..5];
  }

  /**
   * `{date}<sep>{event}` is accepted whenever the separator holds no brace and no
   * illegal character (for instance "{date}_{event}").
   */
  lemma DefaultTemplateAccepted(sep: string)
    requires forall c <- sep :: c !in Braces && c !in IllegalChars
    ensures ValidateFormat("{date}" + sep + "{event}")
  {
    var s := "{date}" + sep + "{event}";
    DefaultTemplateParses(sep);
    DateEventNamesMatch(sep);
    DefaultTemplateText(sep);
  }

  lemma DateEventNamesMatch(sep: string)
    ensures FieldNames([Piece([], Some(Field("date", None, None))), Piece(sep, Some(Field("event", None, None)))])
         == ["date", "event"]
    ensures FieldNameMatches("date") && FieldNameMatches("event")
  {
    var ps := [Piece([], Some(Field("date", None, None))), Piece(sep, Some(Field("event", None, None)))];
    var tail := [Piece(sep, Some(Field("event", None, None)))];
    assert ps[1..] == tail && tail[1..] == [];
    assert FieldNames(tail) == ["event"] + FieldNames([]);
    assert FieldNames(ps) == ["date"] + FieldNames(tail);
  }

  lemma DefaultTemplateText(sep: string)
    requires forall c <- sep :: c !in IllegalChars
    ensures !HasIllegalChar("{date}" + sep + "{event}")
    ensures Contains("{event}", "{date}" + sep + "{event}")
  {
    var s := "{date}" + sep + "{event}";
    var n := |sep|;
    assert forall m :: 6 <= m < 6 + n ==> s[m] == sep[m - 6];
    assert forall m :: 0 <= m < 6 ==> s[m] == "{date}"[m];
    assert forall m :: 6 + n <= m < |s| ==> s[m] == "{event}"[m - 6 - n];
    assert s[6 + n..] == "{event}";
    assert OccursAt("{event}", s, 6 + n);
    OccursImpliesContains("{event}", s, 6 + n);
  }

  // ---------------------------------------------------------------------------
  // The validator the help text describes
  // ---------------------------------------------------------------------------

  /** The template with the ':' that opens the first date token's spec taken out. */
  function WithoutSpecColon(s: string): (r: string)
    ensures SearchDateToken(s, 0).None? ==> r == s
    ensures SearchDateToken(s, 0).Some? ==>
      var i := SearchDateToken(s, 0).value.0;
      i + 6 < |s| && |r| == |s| - 1 && r[..i + 5] == s[..i + 5] && r[i + 5..] == s[i + 6..]
  {
    match SearchDateToken(s, 0)
    case Some((i, _)) => s[..i + 5] + s[i + 6..]
    case None => s
  }

  /**
   * `validate_format` as its help text and its field-name pattern mean it: the ':'
   * that separates `{date:` from its spec is not an illegal character, and a date
   * token counts as a date placeholder. Everything else is checked as written.
   */
  predicate ValidateFormatIntended(s: string) {
    !HasIllegalChar(WithoutSpecColon(s)) &&
    ParseFormat(s).Some? &&
    (HasRequiredTag(s) || DateToken(s).Some?) &&
    forall f <- FieldNames(ParseFormat(s).value) :: FieldNameMatches(f)
  }

  /** Without a date token the two validators agree. */
  lemma IntendedAgreesWithoutDateToken(s: string)
    requires DateToken(s) == None
    ensures ValidateFormatIntended(s) <==> ValidateFormat(s)
  {
  }

  /** The only illegal character the corrected validator lets through is the spec separator of the date token. */
  lemma IntendedExemptsOnlySpecColon(s: string, m: nat)
    requires ValidateFormatIntended(s)
    requires m < |s| && s[m] in IllegalChars
    ensures SearchDateToken(s, 0).Some? && m == SearchDateToken(s, 0).value.0 + 5
    ensures s[m] == ':'
  {
    ColonExemption(s, m);
    var i := SearchDateToken(s, 0).value.0;
    assert s[i..i + 6][5] == s[i + 5];
  }

  lemma ColonExemption(s: string, m: nat)
    requires !HasIllegalChar(WithoutSpecColon(s))
    requires m < |s| && s[m] in IllegalChars
    ensures SearchDateToken(s, 0).Some? && m == SearchDateToken(s, 0).value.0 + 5
  {
    var k := SpecColonIndex(s);
    OnlyRemovedExcluded(s, WithoutSpecColon(s), k, m, IllegalChars);
  }

  /** `r` is `s` when `k` is -1, and otherwise `s` without its `k`-th character. */
  predicate RemovedFrom(s: string, r: string, k: int) {
    if k == -1 then r == s
    else 0 <= k < |s| && |r| == |s| - 1 && r[..k] == s[..k] && r[k..] == s[k + 1..]
  }

  /** Where `WithoutSpecColon` removes a character, or -1 when it removes none. */
  lemma SpecColonIndex(s: string) returns (k: int)
    ensures SearchDateToken(s, 0).None? ==> k == -1
    ensures SearchDateToken(s, 0).Some? ==> k == SearchDateToken(s, 0).value.0 + 5
    ensures RemovedFrom(s, WithoutSpecColon(s), k)
  {
    k := if SearchDateToken(s, 0).Some? then SearchDateToken(s, 0).value.0 + 5 else -1;
  }

  /** When `r` is `s`, or `s` without its `k`-th character, and avoids `cs`, only that character can be in `cs`. */
  lemma OnlyRemovedExcluded(s: string, r: string, k: int, m: nat, cs: set<char>)
    requires RemovedFrom(s, r, k)
    requires forall j :: 0 <= j < |r| ==> r[j] !in cs
    requires m < |s| && s[m] in cs
    ensures m == k
  {
    if k != -1 && m != k {
      var n := RemovedIndex(s, r, k, m);
    }
  }

  /** Where a character of `s` other than the removed one sits in `r`, `s` without its `k`-th character. */
  lemma RemovedIndex(s: string, r: string, k: nat, m: nat) returns (n: nat)
    requires k < |s| && |r| == |s| - 1 && r[..k] == s[..k] && r[k..] == s[k + 1..]
    requires m < |s| && m != k
    ensures n < |r| && r[n] == s[m]
  {
    if m < k {
      n := m;
      assert r[m] == r[..k][m];
    } else {
      n := m - 1;
      assert r[m - 1] == r[k..][m - 1 - k];
    }
  }

  /** Brace-free text followed by `{event}` at the end parses to one piece. */
  lemma EventTailParses(s: string, i: nat, sep: string)
    requires i <= |s| && s[i..] == sep + "{event}"
    requires forall c <- sep :: c !in Braces
    ensures ParseFrom(s, i) == Some([Piece(sep, Some(Field("event", None, None)))])
  {
    var k := |sep|;
    EventTailShape(s, i, sep);
    ParsePlainField(s, i, i + k, i + k + 6);
    var event := Piece(sep, Some(Field("event", None, None)));
    assert ParseFrom(s, i + k + 7) == Some([]);
    assert [event] + [] == [event];
  }

  lemma EventTailShape(s: string, i: nat, sep: string)
    requires i <= |s| && s[i..] == sep + "{event}"
    requires forall c <- sep :: c !in Braces
    ensures |s| == i + |sep| + 7
    ensures s[i..i + |sep|] == sep && s[i + |sep| + 1..i + |sep| + 6] == "event"
    ensures s[i + |sep|] == '{' && s[i + |sep| + 6] == '}'
    ensures forall m :: i <= m < i + |sep| ==> s[m] !in Braces
    ensures forall m :: i + |sep| < m < i + |sep| + 6 ==> s[m] !in NameStops
  {
    var k := |sep|;
    assert forall m :: i <= m < i + k ==> s[m] == s[i..][m - i] == sep[m - i];
    assert s[i + k..] == s[i..][k..] == "{event}";
    assert s[i..i + k] == s[i..][..k] == sep;
    assert s[i + k + 1..i + k + 6] == s[i + k..][1..6] == "event";
  }

  /** `{date:<spec>}<sep>{event}` parses to a date field with that spec and the event field. */
  lemma DateSpecTemplateParses(spec: string, sep: string)
    requires |spec| > 0
    requires forall c <- spec :: c !in Braces
    requires forall c <- sep :: c !in Braces
    ensures ParseFormat("{date:" + spec + "}" + sep + "{event}")
         == Some([Piece([], Some(Field("date", None, Some(spec)))), Piece(sep, Some(Field("event", None, None)))])
  {
    var s := "{date:" + spec + "}" + sep + "{event}";
    assert s[..7 + |spec|] == "{date:" + spec + "}";
    assert s[7 + |spec|..] == sep + "{event}";
    DateSpecParsesFrom(s, spec, sep);
  }

  lemma DateSpecParsesFrom(s: string, spec: string, sep: string)
    requires |spec| > 0
    requires forall c <- spec :: c !in Braces
    requires forall c <- sep :: c !in Braces
    requires 7 + |spec| <= |s| && s[..7 + |spec|] == "{date:" + spec + "}"
    requires s[7 + |spec|..] == sep + "{event}"
    ensures ParseFrom(s, 0)
         == Some([Piece([], Some(Field("date", None, Some(spec)))), Piece(sep, Some(Field("event", None, None)))])
  {
    var close := 6 + |spec|;
    EventTailParses(s, close + 1, sep);
    var event := Piece(sep, Some(Field("event", None, None)));
    DateSpecHead(s, spec);
    ParseSpecField(s, 0, 0, 5, close);
    var date := Piece(s[0..0], Some(Field(s[1..5], None, Some(s[6..close]))));
    assert [date] + [event] == [date, event];
  }

  lemma DateSpecHead(s: string, spec: string)
    requires forall c <- spec :: c !in Braces
    requires 7 + |spec| <= |s| && s[..7 + |spec|] == "{date:" + spec + "}"
    ensures s[1..5] == "date" && s[6..6 + |spec|] == spec && s[0..0] == []
    ensures s[0] == '{' && s[5] == ':' && s[6 + |spec|] == '}'
    ensures forall m :: 0 < m < 5 ==> s[m] !in NameStops
    ensures forall m :: 5 < m < 6 + |spec| ==> s[m] !in Braces
  {
    var head := "{date:" + spec + "}";
    assert forall m :: 0 <= m < 7 + |spec| ==> s[m] == head[m];
    assert forall m :: 6 <= m < 6 + |spec| ==> head[m] == spec[m - 6];
    assert s[1..5] == head[1..5] == "date";
    assert s[6..6 + |spec|] == head[6..6 + |spec|] == spec;
  }

  /** Separator colon aside, `{date:<spec>}<sep>{event}` holds only the characters of its parts. */
  lemma DateSpecTemplateText(spec: string, sep: string)
    requires |spec| > 0
    requires forall c <- spec :: c !in Braces && c !in IllegalChars
    requires forall c <- sep :: c !in IllegalChars
    ensures SearchDateToken("{date:" + spec + "}" + sep + "{event}", 0) == Some((0, 6 + |spec|))
    ensures !HasIllegalChar(WithoutSpecColon("{date:" + spec + "}" + sep + "{event}"))
    ensures Contains("{event}", "{date:" + spec + "}" + sep + "{event}")
  {
    var s := "{date:" + spec + "}" + sep + "{event}";
    DateSpecTokenFound(s, spec, sep);
    SpecColonRemoved(s, spec, sep);
    NoIllegalCharsIn(spec, sep);
    EventAtEnd(s, spec + "}" + sep);
  }

  lemma SpecColonRemoved(s: string, spec: string, sep: string)
    requires s == "{date:" + spec + "}" + sep + "{event}"
    requires SearchDateToken(s, 0) == Some((0, 6 + |spec|))
    ensures WithoutSpecColon(s) == "{date" + spec + "}" + sep + "{event}"
  {
    assert s[..5] == "{date";
    assert s[6..] == spec + "}" + sep + "{event}";
  }

  lemma EventAtEnd(s: string, middle: string)
    requires s == "{date:" + middle + "{event}"
    ensures Contains("{event}", s)
  {
    var at := 6 + |middle|;
    assert s[at..] == "{event}";
    assert OccursAt("{event}", s, at);
    OccursImpliesContains("{event}", s, at);
  }

  lemma DateSpecTokenFound(s: string, spec: string, sep: string)
    requires |spec| > 0
    requires forall c <- spec :: c !in Braces
    requires s == "{date:" + spec + "}" + sep + "{event}"
    ensures SearchDateToken(s, 0) == Some((0, 6 + |spec|))
  {
    var close := 6 + |spec|;
    assert forall m :: 6 <= m < close ==> s[m] == spec[m - 6];
    assert s[close] == '}';
    IndexFromAt(s, 6, '}', close);
    assert s[0..6] == "{date:";
    assert DateTokenAt(s, 0);
  }

  lemma NoIllegalCharsIn(spec: string, sep: string)
    requires forall c <- spec :: c !in IllegalChars
    requires forall c <- sep :: c !in IllegalChars
    ensures !HasIllegalChar("{date" + spec + "}" + sep + "{event}")
  {
    var r := "{date" + spec + "}" + sep + "{event}";
    var n := |spec|;
    var k := |sep|;
    assert forall m :: 0 <= m < 5 ==> r[m] == "{date"[m];
    assert forall m :: 5 <= m < 5 + n ==> r[m] == spec[m - 5];
    assert r[5 + n] == '}';
    assert forall m :: 6 + n <= m < 6 + n + k ==> r[m] == sep[m - 6 - n];
    assert forall m :: 6 + n + k <= m < |r| ==> r[m] == "{event}"[m - 6 - n - k];
  }

  lemma DateEventSpecNamesMatch(spec: string, sep: string)
    ensures FieldNames([Piece([], Some(Field("date", None, Some(spec)))), Piece(sep, Some(Field("event", None, None)))])
         == ["date", "event"]
    ensures FieldNameMatches("date") && FieldNameMatches("event")
  {
    var ps := [Piece([], Some(Field("date", None, Some(spec)))), Piece(sep, Some(Field("event", None, None)))];
    var tail := [Piece(sep, Some(Field("event", None, None)))];
    assert ps[1..] == tail && tail[1..] == [];
    assert FieldNames(tail) == ["event"] + FieldNames([]);
    assert FieldNames(ps) == ["date"] + FieldNames(tail);
  }

  /**
   * A template `{date:<spec>}<sep>{event}` with a non-empty spec and a separator free
   * of braces and illegal characters: rejected as written, accepted as intended.
   */
  lemma DateSpecTemplateAccepted(spec: string, sep: string)
    requires |spec| > 0
    requires forall c <- spec :: c !in Braces && c !in IllegalChars
    requires forall c <- sep :: c !in Braces && c !in IllegalChars
    ensures ValidateFormatIntended("{date:" + spec + "}" + sep + "{event}")
    ensures !ValidateFormat("{date:" + spec + "}" + sep + "{event}")
  {
    var s := "{date:" + spec + "}" + sep + "{event}";
    DateSpecTemplateParses(spec, sep);
    DateSpecTemplateText(spec, sep);
    DateEventSpecNamesMatch(spec, sep);
    assert OccursAt("{date:", s, 0) by {
      assert s[..6] == "{date:";
    }
    OccursImpliesContains("{date:", s, 0);
    DateSpecTemplatesRejected(s);
  }

  /** The help text's own example, "{date:%Y-%m-%d}_{event}": rejected as written, accepted as intended. */
  lemma AdvertisedExample()
    ensures !ValidateFormat("{date:%Y-%m-%d}_{event}")
    ensures ValidateFormatIntended("{date:%Y-%m-%d}_{event}")
  {
    assert "{date:%Y-%m-%d}_{event}" == "{date:" + "%Y-%m-%d" + "}" + "_" + "{event}";
    DateSpecTemplateAccepted("%Y-%m-%d", "_");
  }

  // ---------------------------------------------------------------------------
  // FormatEditor.save_format
  // ---------------------------------------------------------------------------

  /**
   * `save_format`: the entry text, stripped, is saved when `validate_format` accepts it;
   * None stands for the error dialog, where nothing is saved.
   */
  function SaveFormat(entry: string): (saved: Option<string>)
    ensures saved.Some? ==> saved.value != [] && saved.value == Strip(entry) && ValidateFormat(saved.value)
    ensures saved.None? <==> !ValidateFormat(Strip(entry))
  {
    var f := Strip(entry);
    if !ValidateFormat(f) then None else Some(f)
  }

  /** `save_format` with the validator as intended, the one the rest of the editor's help text describes. */
  function SaveFormatIntended(entry: string): (saved: Option<string>)
    ensures saved.Some? ==> saved.value != [] && saved.value == Strip(entry) && ValidateFormatIntended(saved.value)
    ensures saved.None? <==> !ValidateFormatIntended(Strip(entry))
  {
    var f := Strip(entry);
    if !ValidateFormatIntended(f) then None
    else
      assert f != [] by {
        if f == [] {
          assert !Contains("{event}", f) && !Contains("{date}", f);
        }
      }
      Some(f)
  }

  /** A saved template, loaded back into the editor and saved again, is saved unchanged. */
  lemma SaveFormatIdempotent(entry: string)
    requires SaveFormat(entry).Some?
    ensures SaveFormat(SaveFormat(entry).value) == SaveFormat(entry)
  {
    StripIdempotent(entry);
  }

  lemma SaveFormatIntendedIdempotent(entry: string)
    requires SaveFormatIntended(entry).Some?
    ensures SaveFormatIntended(SaveFormatIntended(entry).value) == SaveFormatIntended(entry)
  {
    StripIdempotent(entry);
  }

  /** Whitespace typed around an accepted template is stripped, and the template itself is saved. */
  lemma SaveFormatStripsEntry(w1: string, f: string, w2: string)
    requires AllIn(w1, Whitespace) && AllIn(w2, Whitespace)
    requires IsStrippedWord(f) && ValidateFormat(f)
    ensures SaveFormat(w1 + f + w2) == Some(f)
  {
    StripPadded(w1, f, w2);
  }

  lemma SaveFormatIntendedStripsEntry(w1: string, f: string, w2: string)
    requires AllIn(w1, Whitespace) && AllIn(w2, Whitespace)
    requires IsStrippedWord(f) && ValidateFormatIntended(f)
    ensures SaveFormatIntended(w1 + f + w2) == Some(f)
  {
    StripPadded(w1, f, w2);
  }

  /** As written, an entry whose stripped text holds a date token's "{date:" is never saved. */
  lemma SaveFormatRefusesDateSpec(entry: string)
    requires Contains("{date:", Strip(entry))
    ensures SaveFormat(entry) == None
  {
    DateSpecTemplatesRejected(Strip(entry));
  }

  /** The help text's own example: refused by `save_format` as written, saved as intended. */
  lemma SaveAdvertisedExample()
    ensures SaveFormat("{date:%Y-%m-%d}_{event}") == None
    ensures SaveFormatIntended("{date:%Y-%m-%d}_{event}") == Some("{date:%Y-%m-%d}_{event}")
  {
    AdvertisedExample();
    SaveOnlyAsIntended("{date:%Y-%m-%d}_{event}");
  }

  lemma SaveOnlyAsIntended(f: string)
    requires |f| > 0 && f[0] == '{' && f[|f| - 1] == '}'
    requires !ValidateFormat(f) && ValidateFormatIntended(f)
    ensures SaveFormat(f) == None && SaveFormatIntended(f) == Some(f)
  {
    StrippedUnchanged(f);
  }

  lemma StrippedUnchanged(f: string)
    requires |f| > 0 && f[0] == '{' && f[|f| - 1] == '}'
    ensures Strip(f) == f
  {
    assert IsStrippedWord(f);
    assert [] + f + [] == f;
    StripPadded([], f, []);
  }
}
