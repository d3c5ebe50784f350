/**
 * The Content-Security-Policy step of `handleRequest`, written the way the server entry
 * point runs it: a map filled by a loop over the header's segments, then five `set`
 * calls and one serialisation.
 */
module EntryServer {
  import opened Sequences
  import opened JsString
  import opened OrderedMap
  import opened Csp

  /**
   * The header value `handleRequest` puts under `Content-Security-Policy`, built from the
   * baseline header and the nonce of the request. It is the merge `FinalCsp` specifies, so
   * it ends in `;` and carries the `script-src` literal with the request's nonce.
   */
  method MergeCspHeader(defaultCspHeader: string, nonce: string) returns (finalCsp: string)
    ensures finalCsp == FinalCsp(defaultCspHeader, nonce)
    ensures |finalCsp| > 0 && finalCsp[|finalCsp| - 1] == ';'
    ensures IsInfix(ScriptSrcDirective(nonce), finalCsp)
    ensures IsInfix(NonceSource(nonce), finalCsp)
  {
    var directives := BaselineDirectives(defaultCspHeader);
    directives := SetOverrides(directives, nonce);
    finalCsp := Render(directives);
    FinalCspCarriesNonce(defaultCspHeader, nonce);
  }

  /**
   * The `forEach` over the `;`-separated segments of the baseline header: each segment is
   * trimmed and split into a key and a value, and a non-empty key is `set` in the map.
   */
  method BaselineDirectives(defaultCspHeader: string) returns (directives: seq<Directive>)
    ensures directives == HeaderBaseline(defaultCspHeader)
  {
    directives := [];
    var segments := Split(defaultCspHeader, ';');
    ghost var pairs := ParseAll(segments);
    var i := 0;
    while i < |segments|
      invariant 0 <= i <= |segments|
      invariant directives == Baseline(pairs[..i])
    {
      var d := ParseSegment(segments[i]);
      BaselineSnoc(pairs, i);
      assert pairs[i] == d;
      if d.0 != "" {
        directives := Put(directives, d.0, d.1);
      }
      i := i + 1;
    }
    assert pairs[..i] == pairs;
  }

  /**
   * The five override `set` calls, each storing its literal without the directive name:
   * the names become, or stay, the values the override step prescribes.
   */
  method SetOverrides(baseline: seq<Directive>, nonce: string) returns (directives: seq<Directive>)
    requires Unique(Keys(baseline))
    ensures directives == PutAll(baseline, Overrides(nonce))
  {
    var texts := OverrideDirectives(nonce);
    OverrideEntry(nonce, 0);
    OverrideEntry(nonce, 1);
    OverrideEntry(nonce, 2);
    OverrideEntry(nonce, 3);
    OverrideEntry(nonce, 4);
    PutAllFive(baseline, Overrides(nonce));
    directives := Put(baseline, "img-src", Defined(DropFirstWord(texts[0])));
    directives := Put(directives, "style-src", Defined(DropFirstWord(texts[1])));
    directives := Put(directives, "script-src", Defined(DropFirstWord(texts[2])));
    directives := Put(directives, "connect-src", Defined(DropFirstWord(texts[3])));
    directives := Put(directives, "font-src", Defined(DropFirstWord(texts[4])));
  }

  /** Five successive `set` calls are `PutAll` of the five entries. */
  lemma PutAllFive(m: seq<Directive>, e: seq<Directive>)
    requires Unique(Keys(m)) && |e| == 5
    ensures PutAll(m, e)
      == Put(Put(Put(Put(Put(m, e[0].0, e[0].1), e[1].0, e[1].1), e[2].0, e[2].1), e[3].0, e[3].1), e[4].0, e[4].1)
  {
    var m1 := Put(m, e[0].0, e[0].1);
    var m2 := Put(m1, e[1].0, e[1].1);
    var m3 := Put(m2, e[2].0, e[2].1);
    var m4 := Put(m3, e[3].0, e[3].1);
    assert e[1..][1..][1..][1..][1..] == [];
    assert PutAll(m, e) == PutAll(m1, e[1..]);
    assert PutAll(m1, e[1..]) == PutAll(m2, e[1..][1..]);
    assert PutAll(m2, e[1..][1..]) == PutAll(m3, e[1..][1..][1..]);
    assert PutAll(m3, e[1..][1..][1..]) == PutAll(m4, e[1..][1..][1..][1..]);
  }
}
