/**
 * `BooleanAbstraction`: the conditions of preprocessor annotations are made
 * propositional by rewriting every operator, bracket and special name into
 * an identifier, through a fixed, ordered table of replacements.
 *
 * Java's regular expressions are modelled only for the three pattern shapes
 * the table uses: a quoted literal, a run of whitespace, and a quoted literal
 * between word boundaries or brackets.
 */
module BooleanAbstraction {
  import opened Wrappers

  // The abstraction values (the identifiers that replace operators).
  const EQ: string := "__EQ__"
  const NEQ: string := "__NEQ__"
  const GEQ: string := "__GEQ__"
  const LEQ: string := "__LEQ__"
  const GT: string := "__GT__"
  const LT: string := "__LT__"
  const SUB: string := "__SUB__"
  const ADD: string := "__ADD__"
  const MUL: string := "__MUL__"
  const DIV: string := "__DIV__"
  const MOD: string := "__MOD__"
  const LSHIFT: string := "__LSHIFT__"
  const RSHIFT: string := "__RSHIFT__"
  const NOT: string := "__NOT__"
  const AND: string := "__AND__"
  const OR: string := "__OR__"
  const XOR: string := "__XOR__"
  const THEN: string := "__THEN__"
  const COLON: string := "__COLON__"
  const BRACKET_L: string := "__LB__"
  const BRACKET_R: string := "__RB__"
  const L_AND: string := "__L_AND__"
  const L_OR: string := "__L_OR__"
  const DOT: string := "__DOT__"
  const QUOTE: string := "__QUOTE__"
  const HAS_ATTRIBUTE: string := "HAS_ATTRIBUTE_"
  const HAS_CPP_ATTRIBUTE: string := "HAS_CPP_ATTRIBUTE_"
  const HAS_C_ATTRIBUTE: string := "HAS_C_ATTRIBUTE_"
  const HAS_BUILTIN: string := "HAS_BUILTIN_"
  const HAS_INCLUDE: string := "HAS_INCLUDE_"
  const DEFINED: string := "DEFINED_"
  const ASSIGN: string := "__ASSIGN__"
  const STAR_ASSIGN: string := "__STA___ASSIGN__"
  const DIV_ASSIGN: string := "__DIV___ASSIGN__"
  const MOD_ASSIGN: string := "__MOD___ASSIGN__"
  const PLUS_ASSIGN: string := "__PLU___ASSIGN__"
  const MINUS_ASSIGN: string := "__MIN___ASSIGN__"
  const LEFT_SHIFT_ASSIGN: string := "__LSH___ASSIGN__"
  const RIGHT_SHIFT_ASSIGN: string := "__RSH___ASSIGN__"
  const AND_ASSIGN: string := "__AND___ASSIGN__"
  const XOR_ASSIGN: string := "__XOR___ASSIGN__"
  const OR_ASSIGN: string := "__OR___ASSIGN__"
  const WHITESPACE: string := "_"
  const BSLASH: string := "__B_SLASH__"

  /** A word character of `\b`: an ASCII letter, digit or underscore. */
  predicate IsWord(c: char)
  {
    ('a' <= c <= 'z') || ('A' <= c <= 'Z') || ('0' <= c <= '9') || c == '_'
  }

  /** A character of `\s`: space, tab, line feed, vertical tab, form feed or carriage return. */
  predicate IsSpace(c: char)
  {
    c == ' ' || c == '\t' || c == '\n' || c == '\U{000B}' || c == '\U{000C}' || c == '\r'
  }

  /** A character an abstraction value is made of: an upper-case letter or an underscore. */
  predicate IsValueChar(c: char)
  {
    ('A' <= c <= 'Z') || c == '_'
  }

  /** Every character of `s` is an abstraction-value character. */
  predicate IsValue(s: string)
  {
    forall i :: 0 <= i < |s| ==> IsValueChar(s[i])
  }

  /** The three pattern shapes of the table. */
  datatype Pattern =
    | Quoted(original: string)      // `Pattern.quote(original)`
    | WhitespaceRun                 // `\s+`
    | FullWord(original: string)    // `(?<=\b|[()])` + `Pattern.quote(original)` + `(?=\b|[()])`

  /** A compiled pattern and its replacement string as `Matcher.replaceAll` reads it. */
  datatype Replacement = Replacement(pattern: Pattern, replacement: string)

  /** `Pattern.quote(s)` for a text without `\E`, which is every text of the table. */
  function Quote(s: string): string
  {
    "\\Q" + s + "\\E"
  }

  /** `Pattern.pattern()`: the source text the pattern was compiled from. */
  function Source(p: Pattern): (r: string)
    ensures |r| > 0 && (r[0] == '\\' || r[0] == '(')
  {
    match p
    case Quoted(o) => Quote(o)
    case WhitespaceRun => "\\s+"
    case FullWord(o) => "(?<=\\b|[()])" + Quote(o) + "(?=\\b|[()])"
  }

  /** `Matcher.quoteReplacement(s)`: a backslash in front of every backslash and dollar sign. */
  function QuoteReplacement(s: string): string
  {
    if s == [] then []
    else (if s[0] == '\\' || s[0] == '$' then ['\\', s[0]] else [s[0]]) + QuoteReplacement(s[1..])
  }

  /**
   * `Replacement.literal(original, replacement)`. The replacement is stored
   * through `Matcher.quoteReplacement`, which leaves every abstraction value
   * unchanged (`QuoteValue`, `TableFacts`), so it is stored as given.
   */
  function Literal(original: string, replacement: string): Replacement
  {
    Replacement(Quoted(original), replacement)
  }

  /** `Replacement.onlyFullWord(original, replacement)`, stored like `Literal`. */
  function OnlyFullWord(original: string, replacement: string): Replacement
  {
    Replacement(FullWord(original), replacement)
  }

  /** The quoted text of a pattern is non-empty. */
  predicate Valid(r: Replacement)
  {
    match r.pattern
    case Quoted(o) => |o| > 0
    case WhitespaceRun => true
    case FullWord(o) => |o| > 0
  }

  /** Replaces the non-overlapping occurrences of `o`, leftmost first, by `t`. */
  function ReplaceLiteral(s: string, o: string, t: string): string
    requires |o| > 0
    decreases |s|
  {
    if s == [] then []
    else if o <= s then t + ReplaceLiteral(s[|o|..], o, t)
    else [s[0]] + ReplaceLiteral(s[1..], o, t)
  }

  /** `s` without its leading whitespace. */
  function DropSpaces(s: string): (r: string)
    ensures |r| <= |s| && r == s[|s| - |r|..]
    ensures r == [] || !IsSpace(r[0])
    ensures forall i :: 0 <= i < |s| - |r| ==> IsSpace(s[i])
  {
    if s != [] && IsSpace(s[0]) then DropSpaces(s[1..]) else s
  }

  /** Replaces every maximal run of whitespace by `t` (the greedy `\s+`). */
  function ReplaceSpaces(s: string, t: string): string
    decreases |s|
  {
    if s == [] then []
    else if IsSpace(s[0]) then t + ReplaceSpaces(DropSpaces(s), t)
    else [s[0]] + ReplaceSpaces(s[1..], t)
  }

  /** The look-behind `(?<=\b|[()])` before a match starting with `first`; `prev` is the character before it. */
  predicate BoundaryBehind(prev: Option<char>, first: char)
  {
    (prev.Some? && (prev.value == '(' || prev.value == ')')) ||
    (prev.Some? && IsWord(prev.value)) != IsWord(first)
  }

  /** The look-ahead `(?=\b|[()])` after a match ending with `last`, followed by `rest`. */
  predicate BoundaryAhead(last: char, rest: string)
  {
    (rest != [] && (rest[0] == '(' || rest[0] == ')')) ||
    IsWord(last) != (rest != [] && IsWord(rest[0]))
  }

  /** Replaces the occurrences of `o` that have a boundary on both sides; `prev` is the character before `s`. */
  function ReplaceFullWord(prev: Option<char>, s: string, o: string, t: string): string
    requires |o| > 0
    decreases |s|
  {
    if s == [] then []
    else if o <= s && BoundaryBehind(prev, o[0]) && BoundaryAhead(o[|o| - 1], s[|o|..]) then
      t + ReplaceFullWord(Some(o[|o| - 1]), s[|o|..], o, t)
    else [s[0]] + ReplaceFullWord(Some(s[0]), s[1..], o, t)
  }

  /** `Replacement.applyTo(value)`: `replaceAll` of the pattern with the replacement string. */
  function ApplyTo(r: Replacement, value: string): string
    requires Valid(r)
  {
    var t := r.replacement;
    match r.pattern
    case Quoted(o) => ReplaceLiteral(value, o, t)
    case WhitespaceRun => ReplaceSpaces(value, t)
    case FullWord(o) => ReplaceFullWord(None, value, o, t)
  }

  /** Entry `k` of `REPLACEMENTS`, in table order. */
  function Entry(k: nat): Replacement
    requires k < 44
  {
    match k
    case 0 => Literal("<<", LSHIFT)
    case 1 => Literal(">>", RSHIFT)
    case 2 => Literal("==", EQ)
    case 3 => Literal("!=", NEQ)
    case 4 => Literal(">=", GEQ)
    case 5 => Literal("<=", LEQ)
    case 6 => Literal(">", GT)
    case 7 => Literal("<", LT)
    case 8 => Literal("+", ADD)
    case 9 => Literal("-", SUB)
    case 10 => Literal("*", MUL)
    case 11 => Literal("/", DIV)
    case 12 => Literal("%", MOD)
    case 13 => Literal("^", XOR)
    case 14 => Literal("~", NOT)
    case 15 => Literal("?", THEN)
    case 16 => Literal(":", COLON)
    case 17 => Literal("&&", L_AND)
    case 18 => Literal("||", L_OR)
    case 19 => Literal(".", DOT)
    case 20 => Literal("\"", QUOTE)
    case 21 => Literal("(", BRACKET_L)
    case 22 => Literal(")", BRACKET_R)
    case 23 => Literal("__has_attribute", HAS_ATTRIBUTE)
    case 24 => Literal("__has_cpp_attribute", HAS_CPP_ATTRIBUTE)
    case 25 => Literal("__has_c_attribute", HAS_C_ATTRIBUTE)
    case 26 => Literal("__has_builtin", HAS_BUILTIN)
    case 27 => Literal("__has_include", HAS_INCLUDE)
    case 28 => Literal("defined", DEFINED)
    case 29 => Literal("=", ASSIGN)
    case 30 => Literal("*=", STAR_ASSIGN)
    case 31 => Literal("/=", DIV_ASSIGN)
    case 32 => Literal("%=", MOD_ASSIGN)
    case 33 => Literal("+=", PLUS_ASSIGN)
    case 34 => Literal("-=", MINUS_ASSIGN)
    case 35 => Literal("<<=", LEFT_SHIFT_ASSIGN)
    case 36 => Literal(">>=", RIGHT_SHIFT_ASSIGN)
    case 37 => Literal("&=", AND_ASSIGN)
    case 38 => Literal("^=", XOR_ASSIGN)
    case 39 => Literal("|=", OR_ASSIGN)
    case 40 => Literal("\\", BSLASH)
    case 41 => Replacement(WhitespaceRun, WHITESPACE)
    case 42 => OnlyFullWord("&", AND)
    case _ => OnlyFullWord("|", OR)
  }

  /** `REPLACEMENTS`. */
  const Replacements: seq<Replacement> := seq(44, k requires 0 <= k < 44 => Entry(k))

  /** Abstraction values need no quoting: `quoteReplacement` returns them unchanged. */
  lemma {:induction false} QuoteValue(t: string)
    requires IsValue(t)
    ensures QuoteReplacement(t) == t
  {
    if t != [] {
      assert IsValueChar(t[0]);
      assert forall i :: 0 <= i < |t[1..]| ==> t[1..][i] == t[i + 1];
      QuoteValue(t[1..]);
    }
  }

  /** An entry of the table: a non-empty pattern text and a non-empty abstraction value. */
  predicate GoodEntry(r: Replacement)
  {
    Valid(r) && r.replacement != [] && IsValue(r.replacement)
  }

  /** The abstraction values of the comparison and arithmetic operators are non-empty and made of value characters. */
  lemma ArithmeticValues()
    ensures EQ != [] && IsValue(EQ)
    ensures NEQ != [] && IsValue(NEQ)
    ensures GEQ != [] && IsValue(GEQ)
    ensures LEQ != [] && IsValue(LEQ)
    ensures GT != [] && IsValue(GT)
    ensures LT != [] && IsValue(LT)
    ensures SUB != [] && IsValue(SUB)
    ensures ADD != [] && IsValue(ADD)
    ensures MUL != [] && IsValue(MUL)
    ensures DIV != [] && IsValue(DIV)
    ensures MOD != [] && IsValue(MOD)
    ensures LSHIFT != [] && IsValue(LSHIFT)
    ensures RSHIFT != [] && IsValue(RSHIFT)
    ensures NOT != [] && IsValue(NOT)
    ensures AND != [] && IsValue(AND)
  {
  }

  /** Likewise the values of the logical and punctuation operators and of the `__has_*` keywords. */
  lemma LogicalValues()
    ensures OR != [] && IsValue(OR)
    ensures XOR != [] && IsValue(XOR)
    ensures THEN != [] && IsValue(THEN)
    ensures COLON != [] && IsValue(COLON)
    ensures BRACKET_L != [] && IsValue(BRACKET_L)
    ensures BRACKET_R != [] && IsValue(BRACKET_R)
    ensures L_AND != [] && IsValue(L_AND)
    ensures L_OR != [] && IsValue(L_OR)
    ensures DOT != [] && IsValue(DOT)
    ensures QUOTE != [] && IsValue(QUOTE)
    ensures HAS_ATTRIBUTE != [] && IsValue(HAS_ATTRIBUTE)
    ensures HAS_CPP_ATTRIBUTE != [] && IsValue(HAS_CPP_ATTRIBUTE)
    ensures HAS_C_ATTRIBUTE != [] && IsValue(HAS_C_ATTRIBUTE)
    ensures HAS_BUILTIN != [] && IsValue(HAS_BUILTIN)
    ensures HAS_INCLUDE != [] && IsValue(HAS_INCLUDE)
  {
  }

  /** Likewise the values of `defined`, the assignments, whitespace and the backslash. */
  lemma AssignmentValues()
    ensures DEFINED != [] && IsValue(DEFINED)
    ensures ASSIGN != [] && IsValue(ASSIGN)
    ensures STAR_ASSIGN != [] && IsValue(STAR_ASSIGN)
    ensures DIV_ASSIGN != [] && IsValue(DIV_ASSIGN)
    ensures MOD_ASSIGN != [] && IsValue(MOD_ASSIGN)
    ensures PLUS_ASSIGN != [] && IsValue(PLUS_ASSIGN)
    ensures MINUS_ASSIGN != [] && IsValue(MINUS_ASSIGN)
    ensures LEFT_SHIFT_ASSIGN != [] && IsValue(LEFT_SHIFT_ASSIGN)
    ensures RIGHT_SHIFT_ASSIGN != [] && IsValue(RIGHT_SHIFT_ASSIGN)
    ensures AND_ASSIGN != [] && IsValue(AND_ASSIGN)
    ensures XOR_ASSIGN != [] && IsValue(XOR_ASSIGN)
    ensures OR_ASSIGN != [] && IsValue(OR_ASSIGN)
    ensures WHITESPACE != [] && IsValue(WHITESPACE)
    ensures BSLASH != [] && IsValue(BSLASH)
  {
  }

  /** Every entry of the table is good. */
  lemma EntryGood(k: nat)
    requires k < 44
    ensures GoodEntry(Entry(k))
  {
    ArithmeticValues();
    LogicalValues();
    AssignmentValues();
  }

  /** The table holds 44 entries, all good, whose values `quoteReplacement` leaves unchanged. */
  lemma TableFacts()
    ensures |Replacements| == 44
    ensures forall k :: 0 <= k < |Replacements| ==> Replacements[k] == Entry(k) && GoodEntry(Replacements[k])
    ensures forall k :: 0 <= k < |Replacements| ==> QuoteReplacement(Replacements[k].replacement) == Replacements[k].replacement
  {
    forall k | 0 <= k < |Replacements|
      ensures GoodEntry(Replacements[k])
      ensures QuoteReplacement(Replacements[k].replacement) == Replacements[k].replacement
    {
      EntryGood(k);
      QuoteValue(Replacements[k].replacement);
    }
  }

  // What one replacement keeps and what it removes.

  /** Every character of `r` is a character of `s` or of `t`. */
  predicate CharsFrom(r: string, s: string, t: string)
  {
    forall c :: c in r ==> c in s || c in t
  }

  /** `s` holds no two adjacent copies of `a`. */
  predicate NoPair(s: string, a: char)
  {
    forall i :: 0 <= i < |s| - 1 ==> !(s[i] == a && s[i + 1] == a)
  }

  lemma NoPairSuffix(s: string, a: char, n: nat)
    requires NoPair(s, a) && n <= |s|
    ensures NoPair(s[n..], a)
  {
    assert forall i :: 0 <= i < |s[n..]| ==> s[n..][i] == s[n + i];
  }

  lemma NoPairCons(c: char, r: string, a: char)
    requires NoPair(r, a)
    requires !(c == a && r != [] && r[0] == a)
    ensures NoPair([c] + r, a)
  {
    var s := [c] + r;
    forall i | 0 <= i < |s| - 1
      ensures !(s[i] == a && s[i + 1] == a)
    {
      if i > 0 {
        assert s[i] == r[i - 1] && s[i + 1] == r[i];
      }
    }
  }

  lemma NoPairAppend(t: string, r: string, a: char)
    requires a !in t && NoPair(r, a)
    ensures NoPair(t + r, a)
  {
    var s := t + r;
    forall i | 0 <= i < |s| - 1
      ensures !(s[i] == a && s[i + 1] == a)
    {
      if i < |t| {
        assert s[i] == t[i];
      } else {
        assert s[i] == r[i - |t|] && s[i + 1] == r[i + 1 - |t|];
      }
    }
  }

  lemma SuffixChars(s: string, n: nat)
    requires n <= |s|
    ensures forall c :: c in s[n..] ==> c in s
  {
    forall c | c in s[n..]
      ensures c in s
    {
      var i :| 0 <= i < |s[n..]| && s[n..][i] == c;
      assert s[n + i] == c;
    }
  }

  /** The characters of a literal replacement come from the input or the replacement text. */
  lemma {:induction false} ReplaceLiteralChars(s: string, o: string, t: string)
    requires |o| > 0
    ensures CharsFrom(ReplaceLiteral(s, o, t), s, t)
    decreases |s|
  {
    if s == [] {
    } else if o <= s {
      ReplaceLiteralChars(s[|o|..], o, t);
      SuffixChars(s, |o|);
    } else {
      ReplaceLiteralChars(s[1..], o, t);
      SuffixChars(s, 1);
    }
  }

  /** Replacing the one-character text `[a]` by a text without `a` leaves no `a`. */
  lemma {:induction false} ReplaceLiteralRemoves(s: string, a: char, t: string)
    requires a !in t
    ensures a !in ReplaceLiteral(s, [a], t)
    decreases |s|
  {
    if s != [] {
      ReplaceLiteralRemoves(s[1..], a, t);
    }
  }

  /** A text one of whose characters does not occur in `s` never matches: `s` comes back unchanged. */
  lemma {:induction false} ReplaceLiteralNoMatch(s: string, o: string, t: string, i: nat)
    requires i < |o| && o[i] !in s
    ensures ReplaceLiteral(s, o, t) == s
    decreases |s|
  {
    if s != [] {
      SuffixChars(s, 1);
      ReplaceLiteralNoMatch(s[1..], o, t, i);
    }
  }

  lemma ReplaceLiteralHead(s: string, o: string, t: string)
    requires |o| > 0 && t != [] && s != []
    ensures ReplaceLiteral(s, o, t) != []
    ensures ReplaceLiteral(s, o, t)[0] == if o <= s then t[0] else s[0]
  {
  }

  /** A literal replacement by a text without `a` creates no adjacent pair of `a`. */
  lemma {:induction false} ReplaceLiteralKeepsNoPair(s: string, o: string, t: string, a: char)
    requires |o| > 0 && t != [] && a !in t && NoPair(s, a)
    ensures NoPair(ReplaceLiteral(s, o, t), a)
    decreases |s|
  {
    if s == [] {
    } else if o <= s {
      NoPairSuffix(s, a, |o|);
      ReplaceLiteralKeepsNoPair(s[|o|..], o, t, a);
      NoPairAppend(t, ReplaceLiteral(s[|o|..], o, t), a);
    } else {
      NoPairSuffix(s, a, 1);
      ReplaceLiteralKeepsNoPair(s[1..], o, t, a);
      if |s| > 1 {
        ReplaceLiteralHead(s[1..], o, t);
      }
      NoPairCons(s[0], ReplaceLiteral(s[1..], o, t), a);
    }
  }

  /** Replacing `[a, a]` by a text without `a` leaves no adjacent pair of `a`. */
  lemma {:induction false} ReplaceLiteralRemovesPair(s: string, a: char, t: string)
    requires t != [] && a !in t
    ensures NoPair(ReplaceLiteral(s, [a, a], t), a)
    decreases |s|
  {
    if s == [] {
    } else if [a, a] <= s {
      ReplaceLiteralRemovesPair(s[2..], a, t);
      NoPairAppend(t, ReplaceLiteral(s[2..], [a, a], t), a);
    } else {
      ReplaceLiteralRemovesPair(s[1..], a, t);
      if |s| > 1 {
        ReplaceLiteralHead(s[1..], [a, a], t);
      }
      NoPairCons(s[0], ReplaceLiteral(s[1..], [a, a], t), a);
    }
  }

  /** The characters of the whitespace replacement come from the input or the replacement text. */
  lemma {:induction false} ReplaceSpacesChars(s: string, t: string)
    ensures CharsFrom(ReplaceSpaces(s, t), s, t)
    decreases |s|
  {
    if s == [] {
    } else if IsSpace(s[0]) {
      var d := DropSpaces(s);
      ReplaceSpacesChars(d, t);
      SuffixChars(s, |s| - |d|);
    } else {
      ReplaceSpacesChars(s[1..], t);
      SuffixChars(s, 1);
    }
  }

  /** Replacing whitespace runs by a text without whitespace leaves no whitespace. */
  lemma {:induction false} ReplaceSpacesRemoves(s: string, t: string)
    requires forall c :: c in t ==> !IsSpace(c)
    ensures forall c :: c in ReplaceSpaces(s, t) ==> !IsSpace(c)
    decreases |s|
  {
    if s == [] {
    } else if IsSpace(s[0]) {
      ReplaceSpacesRemoves(DropSpaces(s), t);
    } else {
      ReplaceSpacesRemoves(s[1..], t);
    }
  }

  lemma ReplaceSpacesHead(s: string, t: string)
    requires t != [] && s != []
    ensures ReplaceSpaces(s, t) != []
    ensures ReplaceSpaces(s, t)[0] == if IsSpace(s[0]) then t[0] else s[0]
  {
  }

  /** The whitespace replacement by a text without `a` creates no adjacent pair of `a`. */
  lemma {:induction false} ReplaceSpacesKeepsNoPair(s: string, t: string, a: char)
    requires t != [] && a !in t && NoPair(s, a)
    ensures NoPair(ReplaceSpaces(s, t), a)
    decreases |s|
  {
    if s == [] {
    } else if IsSpace(s[0]) {
      var d := DropSpaces(s);
      NoPairSuffix(s, a, |s| - |d|);
      ReplaceSpacesKeepsNoPair(d, t, a);
      NoPairAppend(t, ReplaceSpaces(d, t), a);
    } else {
      NoPairSuffix(s, a, 1);
      ReplaceSpacesKeepsNoPair(s[1..], t, a);
      if |s| > 1 {
        ReplaceSpacesHead(s[1..], t);
      }
      NoPairCons(s[0], ReplaceSpaces(s[1..], t), a);
    }
  }

  /** The characters of a full-word replacement come from the input or the replacement text. */
  lemma {:induction false} ReplaceFullWordChars(prev: Option<char>, s: string, o: string, t: string)
    requires |o| > 0
    ensures CharsFrom(ReplaceFullWord(prev, s, o, t), s, t)
    decreases |s|
  {
    if s == [] {
    } else if o <= s && BoundaryBehind(prev, o[0]) && BoundaryAhead(o[|o| - 1], s[|o|..]) {
      ReplaceFullWordChars(Some(o[|o| - 1]), s[|o|..], o, t);
      SuffixChars(s, |o|);
    } else {
      ReplaceFullWordChars(Some(s[0]), s[1..], o, t);
      SuffixChars(s, 1);
    }
  }

  lemma ReplaceFullWordHead(prev: Option<char>, s: string, o: string, t: string)
    requires |o| > 0 && t != [] && s != []
    ensures ReplaceFullWord(prev, s, o, t) != []
    ensures ReplaceFullWord(prev, s, o, t)[0] == t[0] || ReplaceFullWord(prev, s, o, t)[0] == s[0]
  {
  }

  /** A full-word replacement by a text without `a` creates no adjacent pair of `a`. */
  lemma {:induction false} ReplaceFullWordKeepsNoPair(prev: Option<char>, s: string, o: string, t: string, a: char)
    requires |o| > 0 && t != [] && a !in t && NoPair(s, a)
    ensures NoPair(ReplaceFullWord(prev, s, o, t), a)
    decreases |s|
  {
    if s == [] {
    } else if o <= s && BoundaryBehind(prev, o[0]) && BoundaryAhead(o[|o| - 1], s[|o|..]) {
      NoPairSuffix(s, a, |o|);
      ReplaceFullWordKeepsNoPair(Some(o[|o| - 1]), s[|o|..], o, t, a);
      NoPairAppend(t, ReplaceFullWord(Some(o[|o| - 1]), s[|o|..], o, t), a);
    } else {
      NoPairSuffix(s, a, 1);
      ReplaceFullWordKeepsNoPair(Some(s[0]), s[1..], o, t, a);
      if |s| > 1 {
        ReplaceFullWordHead(Some(s[0]), s[1..], o, t);
      }
      NoPairCons(s[0], ReplaceFullWord(Some(s[0]), s[1..], o, t), a);
    }
  }

  /** The characters of `applyTo`'s result come from its input or the replacement value. */
  lemma ApplyToChars(r: Replacement, s: string)
    requires Valid(r)
    ensures CharsFrom(ApplyTo(r, s), s, r.replacement)
  {
    match r.pattern
    case Quoted(o) => ReplaceLiteralChars(s, o, r.replacement);
    case WhitespaceRun => ReplaceSpacesChars(s, r.replacement);
    case FullWord(o) => ReplaceFullWordChars(None, s, o, r.replacement);
  }

  /** A replacement whose value is non-empty and has no `a` creates no adjacent pair of `a`. */
  lemma ApplyToKeepsNoPair(r: Replacement, s: string, a: char)
    requires Valid(r) && r.replacement != [] && a !in r.replacement && NoPair(s, a)
    ensures NoPair(ApplyTo(r, s), a)
  {
    match r.pattern
    case Quoted(o) => ReplaceLiteralKeepsNoPair(s, o, r.replacement, a);
    case WhitespaceRun => ReplaceSpacesKeepsNoPair(s, r.replacement, a);
    case FullWord(o) => ReplaceFullWordKeepsNoPair(None, s, o, r.replacement, a);
  }

  // The whole table.

  /** The formula after the first `i` entries of the table were applied to `s`, in table order. */
  function Abstracted(i: nat, s: string): string
    requires i <= 44
  {
    if i == 0 then s
    else
      EntryGood(i - 1);
      ApplyTo(Entry(i - 1), Abstracted(i - 1, s))
  }

  /** Every character of a partly abstracted formula is a character of the input or a value character. */
  lemma {:induction false} AbstractedChars(i: nat, s: string)
    requires i <= 44
    ensures forall c :: c in Abstracted(i, s) ==> c in s || IsValueChar(c)
  {
    if i > 0 {
      AbstractedChars(i - 1, s);
      EntryGood(i - 1);
      ApplyToChars(Entry(i - 1), Abstracted(i - 1, s));
    }
  }

  /** A character that is no value character, once gone, never comes back. */
  lemma {:induction false} StaysAbsent(i: nat, j: nat, s: string, c: char)
    requires i <= j <= 44 && !IsValueChar(c) && c !in Abstracted(i, s)
    ensures c !in Abstracted(j, s)
    decreases j
  {
    if i < j {
      StaysAbsent(i, j - 1, s, c);
      EntryGood(j - 1);
      ApplyToChars(Entry(j - 1), Abstracted(j - 1, s));
    }
  }

  /** Two adjacent copies of a character that is no value character, once gone, never come back. */
  lemma {:induction false} StaysPairFree(i: nat, j: nat, s: string, a: char)
    requires i <= j <= 44 && !IsValueChar(a) && NoPair(Abstracted(i, s), a)
    ensures NoPair(Abstracted(j, s), a)
    decreases j
  {
    if i < j {
      StaysPairFree(i, j - 1, s, a);
      EntryGood(j - 1);
      ApplyToKeepsNoPair(Entry(j - 1), Abstracted(j - 1, s), a);
    }
  }

  /** The characters the table replaces one at a time: `> < + - * / % ^ ~ ? : . " ( ) =` and the backslash. */
  const OperatorChars: string := "><+-*/%^~?:.\"()=\\"

  /** The entry that replaces the operator character `c` on its own. */
  function Eliminator(c: char): (k: nat)
    requires c in OperatorChars
    ensures k < 44 && Entry(k).pattern == Quoted([c])
  {
    if c == '>' then 6
    else if c == '<' then 7
    else if c == '+' then 8
    else if c == '-' then 9
    else if c == '*' then 10
    else if c == '/' then 11
    else if c == '%' then 12
    else if c == '^' then 13
    else if c == '~' then 14
    else if c == '?' then 15
    else if c == ':' then 16
    else if c == '.' then 19
    else if c == '"' then 20
    else if c == '(' then 21
    else if c == ')' then 22
    else if c == '=' then 29
    else 40
  }

  /** No operator character survives the table. */
  lemma OperatorRemoved(c: char, s: string)
    requires c in OperatorChars
    ensures c !in Abstracted(44, s)
  {
    var k := Eliminator(c);
    EntryGood(k);
    ReplaceLiteralRemoves(Abstracted(k, s), c, Entry(k).replacement);
    StaysAbsent(k + 1, 44, s, c);
  }

  /** No whitespace survives the table: entry 41 turns every run into `_`. */
  lemma SpacesRemoved(s: string)
    ensures forall c :: c in Abstracted(44, s) ==> !IsSpace(c)
  {
    AssignmentValues();
    assert Entry(41) == Replacement(WhitespaceRun, WHITESPACE);
    ReplaceSpacesRemoves(Abstracted(41, s), WHITESPACE);
    forall c | IsSpace(c)
      ensures c !in Abstracted(44, s)
    {
      StaysAbsent(42, 44, s, c);
    }
  }

  /** No `&&` and no `||` survive the table: entries 17 and 18 replace them, and nothing later creates one. */
  lemma PairsRemoved(s: string)
    ensures NoPair(Abstracted(44, s), '&') && NoPair(Abstracted(44, s), '|')
  {
    LogicalValues();
    assert Entry(17) == Literal("&&", L_AND) && Entry(18) == Literal("||", L_OR);
    ReplaceLiteralRemovesPair(Abstracted(17, s), '&', L_AND);
    StaysPairFree(18, 44, s, '&');
    ReplaceLiteralRemovesPair(Abstracted(18, s), '|', L_OR);
    StaysPairFree(19, 44, s, '|');
  }

  /** A formula in which no operator character, no whitespace, no `&&` and no `||` is left. */
  predicate FullyAbstracted(r: string)
  {
    (forall c :: c in r ==> c !in OperatorChars && !IsSpace(c)) && NoPair(r, '&') && NoPair(r, '|')
  }

  /** The whole table abstracts every formula fully, adding only value characters. */
  lemma AbstractedSound(s: string)
    ensures FullyAbstracted(Abstracted(44, s))
    ensures forall c :: c in Abstracted(44, s) ==> c in s || IsValueChar(c)
  {
    forall c | c in OperatorChars
      ensures c !in Abstracted(44, s)
    {
      OperatorRemoved(c, s);
    }
    SpacesRemoved(s);
    PairsRemoved(s);
    AbstractedChars(44, s);
  }

  /**
   * The compound assignments (entries 30 to 39) never match: every one of them
   * ends in `=`, which entry 29 has already replaced.
   */
  lemma CompoundAssignmentsInert(k: nat, s: string)
    requires 30 <= k < 40
    ensures Abstracted(k + 1, s) == Abstracted(k, s)
  {
    EqualsGone(k, s);
    CompoundAssignmentEntry(k);
    var r := Entry(k);
    ReplaceLiteralNoMatch(Abstracted(k, s), r.pattern.original, r.replacement, |r.pattern.original| - 1);
  }

  /** From entry 30 on, no `=` is left. */
  lemma EqualsGone(k: nat, s: string)
    requires 30 <= k <= 44
    ensures '=' !in Abstracted(k, s)
  {
    var e := Eliminator('=');
    EntryGood(e);
    ReplaceLiteralRemoves(Abstracted(e, s), '=', Entry(e).replacement);
    StaysAbsent(e + 1, k, s, '=');
  }

  /** Entries 30 to 39 are literals ending in `=`. */
  lemma CompoundAssignmentEntry(k: nat)
    requires 30 <= k < 40
    ensures Entry(k).pattern.Quoted? && |Entry(k).pattern.original| > 1
    ensures Entry(k).pattern.original[|Entry(k).pattern.original| - 1] == '='
  {
  }

  /** `abstractAll`: applies every entry of the table, in order. */
  method AbstractAll(formula: string) returns (r: string)
    ensures r == Abstracted(|Replacements|, formula)
    ensures FullyAbstracted(r)
    ensures forall c :: c in r ==> c in formula || IsValueChar(c)
  {
    TableFacts();
    r := formula;
    for i := 0 to |Replacements|
      invariant r == Abstracted(i, formula)
    {
      r := ApplyTo(Replacements[i], r);
    }
    AbstractedSound(formula);
  }

  /**
   * Entry 42 replaces a single `&` between word boundaries or next to a
   * bracket, and leaves `&&` and a leading unary `&` untouched.
   */
  lemma FullWordAndExamples()
    ensures ApplyTo(Entry(42), "a&b") == "a" + AND + "b"
    ensures ApplyTo(Entry(42), "a&&b") == "a&&b"
    ensures ApplyTo(Entry(42), "&x") == "&x"
  {
    assert Entry(42) == OnlyFullWord("&", AND);
    var o := "&";
    assert "a&b"[1..] == "&b" && "&b"[1..] == "b" && "b"[1..] == [];
    assert ReplaceFullWord(Some('&'), "b", o, AND) == "b";
    assert ReplaceFullWord(Some('a'), "&b", o, AND) == AND + "b";
    assert ReplaceFullWord(None, "a&b", o, AND) == "a" + AND + "b";
    assert "a&&b"[1..] == "&&b" && "&&b"[1..] == "&b";
    assert ReplaceFullWord(Some('&'), "&b", o, AND) == "&b";
    assert ReplaceFullWord(Some('a'), "&&b", o, AND) == "&&b";
    assert ReplaceFullWord(None, "a&&b", o, AND) == "a&&b";
    assert "&x"[1..] == "x" && "x"[1..] == [];
    assert ReplaceFullWord(Some('&'), "x", o, AND) == "x";
    assert ReplaceFullWord(None, "&x", o, AND) == "&x";
  }

  /** Literal entries match anywhere, even inside a longer identifier. */
  lemma LiteralDefinedExample()
    ensures ApplyTo(Entry(28), "undefined") == "un" + DEFINED
  {
    assert Entry(28) == Literal("defined", DEFINED);
    var o := "defined";
    assert "undefined"[1..] == "ndefined" && "ndefined"[1..] == "defined" && "defined"[|o|..] == [];
    assert o <= "defined" && !(o <= "undefined") && !(o <= "ndefined");
    assert ReplaceLiteral("defined", o, DEFINED) == DEFINED;
    assert ReplaceLiteral("ndefined", o, DEFINED) == "n" + DEFINED;
  }

  /** The search loop of `abstractFirstOrAll`: the index of the first entry of `rs` whose pattern source is `formula`, or `|rs|`. */
  method FindSource(rs: seq<Replacement>, formula: string) returns (k: nat)
    ensures k <= |rs|
    ensures forall j :: 0 <= j < k ==> Source(rs[j].pattern) != formula
    ensures k < |rs| ==> Source(rs[k].pattern) == formula
  {
    for i := 0 to |rs|
      invariant forall j :: 0 <= j < i ==> Source(rs[j].pattern) != formula
    {
      if Source(rs[i].pattern) == formula {
        return i;
      }
    }
    return |rs|;
  }

  /**
   * `abstractFirstOrAll`: the value of the first entry whose pattern source is
   * the whole formula, or else `abstractAll`.
   */
  method AbstractFirstOrAll(formula: string) returns (r: string)
    ensures forall k :: 0 <= k < |Replacements| && Source(Replacements[k].pattern) == formula &&
                        (forall j :: 0 <= j < k ==> Source(Replacements[j].pattern) != formula) ==>
                          r == Replacements[k].replacement
    ensures (forall k :: 0 <= k < |Replacements| ==> Source(Replacements[k].pattern) != formula) ==>
              r == Abstracted(44, formula)
    ensures formula == [] || (formula[0] != '\\' && formula[0] != '(') ==> r == Abstracted(44, formula)
  {
    var k := FindSource(Replacements, formula);
    if k < |Replacements| {
      r := Replacements[k].replacement;
    } else {
      r := AbstractAll(formula);
    }
  }
}
