/**
 * The Content-Security-Policy merge of the storefront's server entry point: the
 * baseline header is cut into directives, five fixed directives are written over
 * them, and the result is printed back as one header value.
 */
module Csp {
  import opened Sequences
  import opened JsString
  import opened OrderedMap

  /** A directive value; destructuring a one-element array leaves the value `undefined`. */
  datatype Value = Undefined | Defined(text: string)

  /** One `[key, value]` entry of the directive map. */
  type Directive = (string, Value)

  // ----- The five override literals -----
  // Each literal is written as its directive name, one space and its source list; the
  // source lists keep the literal's final `;`.

  const ImgSrcSources: string :=
    "'self' https://cdn.shopify.com https://shopify.com https://letsenhance.io https://cdn.jsdelivr.net data:;"
  const StyleSrcSources: string :=
    "'self' 'unsafe-inline' https://cdn.shopify.com https://cdn.jsdelivr.net https://cdnjs.cloudflare.com;"
  const ConnectSrcSources: string :=
    "'self' https://monorail-edge.shopifysvc.com;"
  const FontSrcSources: string :=
    "'self' https://cdnjs.cloudflare.com;"

  /** The source token that admits inline scripts carrying the per-request nonce. */
  function NonceSource(nonce: string): string {
    "'nonce-" + nonce + "'"
  }

  function ScriptSrcSources(nonce: string): string {
    "'self' " + NonceSource(nonce) + " https://cdn.shopify.com https://cdn.jsdelivr.net;"
  }

  const ImgSrcDirective: string := "img-src" + " " + ImgSrcSources
  const StyleSrcDirective: string := "style-src" + " " + StyleSrcSources
  const ConnectSrcDirective: string := "connect-src" + " " + ConnectSrcSources
  const FontSrcDirective: string := "font-src" + " " + FontSrcSources

  /** The `script-src` template literal, with the nonce spliced in. */
  function ScriptSrcDirective(nonce: string): string {
    "script-src" + " " + ScriptSrcSources(nonce)
  }

  /** The five override literals, in the order the override step uses them. */
  function OverrideDirectives(nonce: string): seq<string> {
    [ImgSrcDirective, StyleSrcDirective, ScriptSrcDirective(nonce), ConnectSrcDirective, FontSrcDirective]
  }

  /** `directive.split(' ').slice(1).join(' ')`: the literal without its first word. */
  function DropFirstWord(directive: string): string {
    Join(Split(directive, ' ')[1..], " ")
  }

  /** The names the override step sets, in the order it sets them. */
  const OverrideNames: seq<string> := ["img-src", "style-src", "script-src", "connect-src", "font-src"]

  /** The five `directives.set(name, value)` calls of the override step, in order. */
  function Overrides(nonce: string): seq<Directive> {
    [ ("img-src", Defined(ImgSrcSources)),
      ("style-src", Defined(StyleSrcSources)),
      ("script-src", Defined(ScriptSrcSources(nonce))),
      ("connect-src", Defined(ConnectSrcSources)),
      ("font-src", Defined(FontSrcSources)) ]
  }

  // ----- Parsing the baseline header -----

  /** `text.split(' ', 2)`, destructured as `[key, value]`. */
  function SplitDirective(text: string): Directive {
    var parts := SplitLimit(text, ' ', 2);
    assert |parts| > 0;
    (parts[0], if |parts| == 2 then Defined(parts[1]) else Undefined)
  }

  /** `directive.trim().split(' ', 2)`, destructured as `[key, value]`. */
  function ParseSegment(segment: string): Directive {
    SplitDirective(Trim(segment))
  }

  /** The pair each `;`-separated segment parses to, in order. */
  function ParseAll(segments: seq<string>): seq<Directive> {
    seq(|segments|, i requires 0 <= i < |segments| => ParseSegment(segments[i]))
  }

  /** One step of the `forEach`: the parsed pair is `set` unless its key is empty. */
  function AddDirective(directives: seq<Directive>, d: Directive): (r: seq<Directive>)
    requires Unique(Keys(directives))
    ensures Unique(Keys(r))
  {
    if d.0 != "" then Put(directives, d.0, d.1) else directives
  }

  /** The directive map once the `forEach` has visited the parsed pairs. */
  function Baseline(pairs: seq<Directive>): (r: seq<Directive>)
    ensures Unique(Keys(r))
  {
    if pairs == [] then []
    else AddDirective(Baseline(pairs[..|pairs| - 1]), pairs[|pairs| - 1])
  }

  /** The baseline map of a header. */
  function HeaderBaseline(defaultCspHeader: string): (r: seq<Directive>)
    ensures Unique(Keys(r))
  {
    Baseline(ParseAll(Split(defaultCspHeader, ';')))
  }

  /** The directive map once the override step has run: no name occurs twice. */
  function Merged(defaultCspHeader: string, nonce: string): (r: seq<Directive>)
    ensures Unique(Keys(r))
  {
    PutAll(HeaderBaseline(defaultCspHeader), Overrides(nonce))
  }

  // ----- Serialising the map -----

  /** A template literal renders `undefined` as the text `undefined`. */
  function ValueText(v: Value): string {
    match v
    case Undefined => "undefined"
    case Defined(s) => s
  }

  /** `${key} ${value}` */
  function EntryText(d: Directive): string {
    d.0 + " " + ValueText(d.1)
  }

  /** `Array.from(directives.entries()).map(...).join('; ') + ';'`, which always ends in `;`. */
  function Render(directives: seq<Directive>): (r: string)
    ensures |r| > 0 && r[|r| - 1] == ';'
  {
    Join(seq(|directives|, i requires 0 <= i < |directives| => EntryText(directives[i])), "; ") + ";"
  }

  /** The header value `handleRequest` computes from the baseline header and the nonce. */
  function FinalCsp(defaultCspHeader: string, nonce: string): string {
    Render(Merged(defaultCspHeader, nonce))
  }

  /** The value of the last pair whose key is `key`, if any. */
  function LastValue(pairs: seq<Directive>, key: string): Option<Value> {
    if pairs == [] then None
    else if pairs[|pairs| - 1].0 == key then Some(pairs[|pairs| - 1].1)
    else LastValue(pairs[..|pairs| - 1], key)
  }

  // ----- Override values -----

  lemma DropFirstWordOf(name: string, rest: string)
    requires ' ' !in name
    ensures DropFirstWord(name + " " + rest) == rest
  {
    assert name + " " + rest == name + [' '] + rest;
    SplitCons(name, ' ', rest);
    assert Split(name + " " + rest, ' ')[1..] == Split(rest, ' ');
  }

  /**
   * Each override call stores its literal minus the directive name: the whole source
   * list, final `;` included, and for `script-src` whatever characters the nonce holds.
   */
  lemma OverrideValues(nonce: string)
    ensures DropFirstWord(ImgSrcDirective) == ImgSrcSources
    ensures DropFirstWord(StyleSrcDirective) == StyleSrcSources
    ensures DropFirstWord(ScriptSrcDirective(nonce)) == ScriptSrcSources(nonce)
    ensures DropFirstWord(ConnectSrcDirective) == ConnectSrcSources
    ensures DropFirstWord(FontSrcDirective) == FontSrcSources
  {
    NameValue("img-src", ImgSrcSources);
    NameValue("style-src", StyleSrcSources);
    NameValue("script-src", ScriptSrcSources(nonce));
    NameValue("connect-src", ConnectSrcSources);
    NameValue("font-src", FontSrcSources);
  }

  /** The override literals are spelled as a space-free name, one space and the sources. */
  lemma NameValue(name: string, sources: string)
    requires name in OverrideNames
    ensures DropFirstWord(name + " " + sources) == sources
  {
    assert ' ' !in name;
    DropFirstWordOf(name, sources);
  }

  /** The `j`-th override call sets the `j`-th name to the `j`-th literal minus its first word. */
  lemma OverrideEntry(nonce: string, j: nat)
    requires j < 5
    ensures |Overrides(nonce)| == 5 && |OverrideDirectives(nonce)| == 5
    ensures Overrides(nonce)[j] == (OverrideNames[j], Defined(DropFirstWord(OverrideDirectives(nonce)[j])))
  {
    var e := Overrides(nonce)[j];
    OverrideLiteral(nonce, j);
    NameValue(e.0, e.1.text);
  }

  /** The `j`-th override literal is the `j`-th name, one space and the `j`-th stored value. */
  lemma OverrideLiteral(nonce: string, j: nat)
    requires j < 5
    ensures Overrides(nonce)[j].0 == OverrideNames[j] && Overrides(nonce)[j].1.Defined?
    ensures OverrideDirectives(nonce)[j] == OverrideNames[j] + " " + Overrides(nonce)[j].1.text
  {
  }

  /** The override step sets five distinct names. */
  lemma OverrideKeys(nonce: string)
    ensures Keys(Overrides(nonce)) == OverrideNames && Unique(OverrideNames)
  {
  }

  /** The `script-src` source list holds the token `'nonce-<nonce>'`. */
  lemma ScriptSrcHasNonce(nonce: string)
    ensures IsInfix(NonceSource(nonce), ScriptSrcSources(nonce))
  {
    var a := "'self' ";
    var b := " https://cdn.shopify.com https://cdn.jsdelivr.net;";
    AppendAssoc(a, NonceSource(nonce), b);
    assert ScriptSrcSources(nonce) == a + (NonceSource(nonce) + b);
    assert ScriptSrcSources(nonce)[|a|..] == NonceSource(nonce) + b;
  }

  // ----- Parsing -----

  /**
   * The key is the first space-free word of the text. The value is `undefined` exactly
   * when the text holds no space; otherwise it is the second word, ended by a space or
   * by the end of the text.
   */
  lemma SplitDirectiveWords(t: string)
    ensures var d := SplitDirective(t);
      && ' ' !in d.0
      && (d.1.Undefined? <==> ' ' !in t)
      && (d.1.Undefined? ==> d.0 == t)
      && (d.1.Defined? ==> ' ' !in d.1.text && d.0 + " " + d.1.text <= t)
      && (d.1.Defined? ==> var n := |d.0| + 1 + |d.1.text|; n == |t| || t[n] == ' ')
  {
    var parts := Split(t, ' ');
    SplitHead(t, ' ');
    if ' ' in t {
      var p := IndexOf(t, ' ');
      var u := t[p + 1..];
      assert parts == [t[..p]] + Split(u, ' ');
      var w := Split(u, ' ')[0];
      assert SplitLimit(t, ' ', 2) == [t[..p], w];
      SplitHead(u, ' ');
      assert t == t[..p] + " " + u;
    }
  }

  /** Text that continues past its second word keeps only its first two words. */
  lemma SplitDirectiveDropsRest(key: string, first: string, rest: string)
    requires ' ' !in key && ' ' !in first
    ensures SplitDirective(key + " " + first + " " + rest) == (key, Defined(first))
  {
    assert key + " " + first + " " + rest == key + [' '] + (first + [' '] + rest);
    SplitCons(key, ' ', first + [' '] + rest);
    SplitCons(first, ' ', rest);
  }

  /** A segment has an empty key exactly when it is all whitespace (empty included). */
  lemma ParseSegmentBlank(segment: string)
    ensures ParseSegment(segment).0 == "" <==> IsBlank(segment)
  {
    var t := Trim(segment);
    TrimEmpty(segment);
    SplitDirectiveWords(t);
    if t != "" {
      assert !IsWhitespace(t[0]) && t[0] != ' ';
    }
  }

  // ----- The baseline map -----

  /** Visiting one more pair is one more `forEach` step. */
  lemma BaselineSnoc(pairs: seq<Directive>, i: nat)
    requires i < |pairs|
    ensures Baseline(pairs[..i + 1]) == AddDirective(Baseline(pairs[..i]), pairs[i])
  {
    assert pairs[..i + 1][..i] == pairs[..i];
  }

  /** The baseline map holds exactly the non-empty keys of the parsed pairs. */
  lemma {:induction false} BaselineKeys(pairs: seq<Directive>)
    ensures forall k :: k in Keys(Baseline(pairs)) <==> k != "" && k in Keys(pairs)
  {
    if pairs != [] {
      var init := pairs[..|pairs| - 1];
      BaselineKeys(init);
      assert Keys(pairs) == Keys(init) + [pairs[|pairs| - 1].0];
    }
  }

  /** A repeated name holds the value of its last occurrence. */
  lemma {:induction false} BaselineLastWins(pairs: seq<Directive>, key: string)
    requires key != ""
    ensures Lookup(Baseline(pairs), key) == LastValue(pairs, key)
  {
    if pairs != [] {
      var init := pairs[..|pairs| - 1];
      BaselineLastWins(init, key);
      var d := pairs[|pairs| - 1];
      if d.0 != "" {
        PutLookup(Baseline(init), d.0, d.1, key);
      }
    }
  }

  /** The names stand in the order of their first occurrences among the parsed pairs. */
  lemma {:induction false} BaselineFirstPosition(pairs: seq<Directive>)
    ensures var ks := Keys(Baseline(pairs)); var pk := Keys(pairs);
      forall i, j | 0 <= i < j < |ks| :: ks[i] in pk && ks[j] in pk && IndexOf(pk, ks[i]) < IndexOf(pk, ks[j])
  {
    if pairs != [] {
      var init := pairs[..|pairs| - 1];
      var ks0 := Keys(Baseline(init));
      var pk0 := Keys(init);
      var k := pairs[|pairs| - 1].0;
      var pk := Keys(pairs);
      var ks := Keys(Baseline(pairs));
      BaselineFirstPosition(init);
      BaselineKeys(init);
      assert pk == pk0 + [k];
      assert Baseline(pairs) == AddDirective(Baseline(init), pairs[|pairs| - 1]);
      if k != "" && k !in ks0 {
        assert ks == ks0 + [k];
        assert k !in pk0;
        IndexOfAppendNew(pk0, k);
        forall i, j | 0 <= i < j < |ks|
          ensures ks[i] in pk && ks[j] in pk && IndexOf(pk, ks[i]) < IndexOf(pk, ks[j])
        {
          assert ks[i] == ks0[i] && ks0[i] in ks0;
          IndexOfAppend(pk0, k, ks[i]);
          if j < |ks0| {
            assert ks[j] == ks0[j] && ks0[j] in ks0;
            IndexOfAppend(pk0, k, ks[j]);
          }
        }
      } else {
        assert ks == ks0;
        forall i, j | 0 <= i < j < |ks|
          ensures ks[i] in pk && ks[j] in pk && IndexOf(pk, ks[i]) < IndexOf(pk, ks[j])
        {
          assert ks0[i] in ks0 && ks0[j] in ks0;
          IndexOfAppend(pk0, k, ks[i]);
          IndexOfAppend(pk0, k, ks[j]);
        }
      }
    }
  }

  /** The baseline map is empty exactly when every parsed key is empty. */
  lemma BaselineEmpty(pairs: seq<Directive>)
    ensures Baseline(pairs) == [] <==> forall i | 0 <= i < |pairs| :: pairs[i].0 == ""
  {
    var b := Baseline(pairs);
    var pk := Keys(pairs);
    BaselineKeys(pairs);
    if b == [] {
      forall i | 0 <= i < |pairs| ensures pairs[i].0 == "" {
        assert pk[i] == pairs[i].0 && pk[i] in pk;
        assert pk[i] !in Keys(b);
      }
    } else {
      var k := Keys(b)[0];
      assert k in Keys(b);
      var i := IndexOf(pk, k);
      assert pairs[i].0 == k != "";
    }
  }

  // ----- The override step -----

  /** Each of the five names holds its override value, whatever the baseline gave it. */
  lemma OverridesWin(defaultCspHeader: string, nonce: string)
    ensures var m := Merged(defaultCspHeader, nonce);
      forall j | 0 <= j < |OverrideNames| :: Lookup(m, OverrideNames[j]) == Some(Overrides(nonce)[j].1)
  {
    var b := HeaderBaseline(defaultCspHeader);
    var ov := Overrides(nonce);
    OverrideKeys(nonce);
    forall j | 0 <= j < |OverrideNames|
      ensures Lookup(Merged(defaultCspHeader, nonce), OverrideNames[j]) == Some(ov[j].1)
    {
      PutAllLookup(b, ov, OverrideNames[j]);
      LookupAt(ov, j);
    }
  }

  /**
   * A name outside the five keeps its parsed baseline value, and the entries outside the
   * five keep their relative order.
   */
  lemma BaselineKept(defaultCspHeader: string, nonce: string)
    ensures var b := HeaderBaseline(defaultCspHeader); var m := Merged(defaultCspHeader, nonce);
      && (forall k | k !in OverrideNames :: Lookup(m, k) == Lookup(b, k))
      && Retained(m, OverrideNames) == Retained(b, OverrideNames)
  {
    var b := HeaderBaseline(defaultCspHeader);
    var ov := Overrides(nonce);
    OverrideKeys(nonce);
    forall k | k !in OverrideNames ensures Lookup(Merged(defaultCspHeader, nonce), k) == Lookup(b, k) {
      PutAllLookup(b, ov, k);
    }
    PutAllRetained(b, ov, OverrideNames);
  }

  /**
   * Every baseline name keeps its position; the override names the baseline lacks follow,
   * in the order img-src, style-src, script-src, connect-src, font-src. The second
   * conjunct is a corollary of the first, stated per entry.
   */
  lemma OverrideOrder(defaultCspHeader: string, nonce: string)
    ensures var b := HeaderBaseline(defaultCspHeader); var m := Merged(defaultCspHeader, nonce);
      && Keys(m) == Keys(b) + Missing(OverrideNames, Keys(b))
      && forall i | 0 <= i < |b| :: m[i].0 == b[i].0
  {
    var b := HeaderBaseline(defaultCspHeader);
    var m := Merged(defaultCspHeader, nonce);
    OverrideKeys(nonce);
    PutAllKeys(b, Overrides(nonce));
    forall i | 0 <= i < |b| ensures m[i].0 == b[i].0 {
      assert Keys(m)[i] == Keys(b)[i];
    }
  }

  /** A header whose segments are all blank, the empty header among them, gives just the five overrides. */
  lemma BlankHeader(defaultCspHeader: string, nonce: string)
    requires forall s | s in Split(defaultCspHeader, ';') :: IsBlank(s)
    ensures Merged(defaultCspHeader, nonce) == Overrides(nonce)
  {
    var segments := Split(defaultCspHeader, ';');
    var pairs := ParseAll(segments);
    forall i | 0 <= i < |pairs| ensures pairs[i].0 == "" {
      assert segments[i] in segments;
      ParseSegmentBlank(segments[i]);
    }
    BaselineEmpty(pairs);
    OverrideKeys(nonce);
    PutAllFresh([], Overrides(nonce));
  }

  lemma EmptyHeader(nonce: string)
    ensures Merged("", nonce) == Overrides(nonce)
  {
    assert Split("", ';') == [""];
    BlankHeader("", nonce);
  }

  // ----- The header text -----

  /** Every entry's `key value` text appears in the rendered header. */
  lemma RenderShowsEntries(directives: seq<Directive>)
    ensures forall i | 0 <= i < |directives| :: IsInfix(EntryText(directives[i]), Render(directives))
  {
    var texts := seq(|directives|, i requires 0 <= i < |directives| => EntryText(directives[i]));
    forall i | 0 <= i < |directives| ensures IsInfix(EntryText(directives[i]), Render(directives)) {
      JoinContains(texts, "; ", i);
      InfixOfLeft(texts[i], Join(texts, "; "), ";");
    }
  }

  /** An entry that is in the map appears in the rendered header as `key value`. */
  lemma RenderShowsLookup(directives: seq<Directive>, key: string, v: Value)
    requires Lookup(directives, key) == Some(v)
    ensures IsInfix(key + " " + ValueText(v), Render(directives))
  {
    LookupFound(directives, key, v);
    RenderShowsEntries(directives);
  }

  /** Each of the five override literals (the nonce spliced into `script-src`) appears verbatim in the header. */
  lemma OverrideLiteralsAppear(defaultCspHeader: string, nonce: string)
    ensures forall j | 0 <= j < 5 :: IsInfix(OverrideDirectives(nonce)[j], FinalCsp(defaultCspHeader, nonce))
  {
    var m := Merged(defaultCspHeader, nonce);
    OverridesWin(defaultCspHeader, nonce);
    forall j | 0 <= j < 5 ensures IsInfix(OverrideDirectives(nonce)[j], FinalCsp(defaultCspHeader, nonce)) {
      OverrideLiteral(nonce, j);
      RenderShowsLookup(m, OverrideNames[j], Overrides(nonce)[j].1);
    }
  }

  /** The header carries the `script-src` literal, and so the token `'nonce-<nonce>'`. */
  lemma FinalCspCarriesNonce(defaultCspHeader: string, nonce: string)
    ensures IsInfix(ScriptSrcDirective(nonce), FinalCsp(defaultCspHeader, nonce))
    ensures IsInfix(NonceSource(nonce), FinalCsp(defaultCspHeader, nonce))
  {
    var m := Merged(defaultCspHeader, nonce);
    OverridesWin(defaultCspHeader, nonce);
    assert OverrideNames[2] == "script-src";
    RenderShowsLookup(m, "script-src", Defined(ScriptSrcSources(nonce)));
    ScriptSrcHasNonce(nonce);
    InfixOfRight(NonceSource(nonce), "script-src" + " ", ScriptSrcSources(nonce));
    InfixTransitive(NonceSource(nonce), ScriptSrcDirective(nonce), FinalCsp(defaultCspHeader, nonce));
  }

  /**
   * A baseline directive without a value, whose name is not overridden, is printed as
   * `name undefined`.
   */
  lemma BareDirectivePrintsUndefined(defaultCspHeader: string, nonce: string, key: string)
    requires key != "" && key !in OverrideNames
    requires LastValue(ParseAll(Split(defaultCspHeader, ';')), key) == Some(Undefined)
    ensures IsInfix(key + " " + "undefined", FinalCsp(defaultCspHeader, nonce))
  {
    var b := HeaderBaseline(defaultCspHeader);
    BaselineLastWins(ParseAll(Split(defaultCspHeader, ';')), key);
    assert Lookup(b, key) == Some(Undefined);
    BaselineKept(defaultCspHeader, nonce);
    RenderShowsLookup(Merged(defaultCspHeader, nonce), key, Undefined);
  }
}
