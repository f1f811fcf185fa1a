/**
 * `vitePluginScripts`: the client-build step that moves small, self-contained
 * hoisted scripts out of the bundle and into `inlinedScripts`, from where the
 * pages that use them embed the code directly.
 *
 * The bundle object is an ordered list of (file name, output) entries whose
 * order is the object's key order; deleting a key is modelled as dropping its
 * entry while the others keep their order.
 */
module ScriptInlining {
  import opened Optional
  import opened JsString

  /** The limit the plugin starts with, in bytes (Vite's own default). */
  const DefaultInlineLimit: int := 4096

  datatype BuildOptions = BuildOptions(assetsInlineLimit: Option<int>)

  /** The part of Vite's resolved config the plugin reads; `build` may be absent. */
  datatype ResolvedConfig = ResolvedConfig(build: Option<BuildOptions>)

  /** `config.build?.assetsInlineLimit`, `None` standing for `undefined`. */
  function ConfiguredLimit(config: ResolvedConfig): Option<int> {
    if config.build.Some? then config.build.value.assetsInlineLimit else None
  }

  /**
   * `configResolved`: a limit the config defines replaces the current one,
   * whatever its value (zero and negative numbers included); otherwise the
   * current limit stays.
   */
  function ConfigResolved(limit: int, config: ResolvedConfig): (r: int)
    ensures config.build.Some? && config.build.value.assetsInlineLimit.Some? ==>
      r == config.build.value.assetsInlineLimit.value
    ensures config.build.None? || config.build.value.assetsInlineLimit.None? ==> r == limit
  {
    match ConfiguredLimit(config)
    case Some(n) => n
    case None => limit
  }

  /**
   * The limit the plugin ends up with when it starts from its default: the
   * configured `assetsInlineLimit` if there is one, otherwise 4096 bytes.
   */
  lemma ResolvedFromDefault(config: ResolvedConfig)
    ensures ConfiguredLimit(config).None? ==> ConfigResolved(DefaultInlineLimit, config) == 4096
    ensures ConfiguredLimit(config).Some? ==> ConfigResolved(DefaultInlineLimit, config) == ConfiguredLimit(config).value
  {
  }

  /** Resolving the same config twice gives the limit resolving it once gives. */
  lemma ConfigResolvedIdempotent(limit: int, config: ResolvedConfig)
    ensures ConfigResolved(ConfigResolved(limit, config), config) == ConfigResolved(limit, config)
  {
  }

  /** A bundle output: a JavaScript chunk, or any other asset (whose fields the plugin never reads). */
  datatype OutputItem =
    | Chunk(facadeModuleId: Option<string>, imports: seq<string>, dynamicImports: seq<string>, code: string)
    | Asset(fileName: string)

  /** The bundle object: file name and output, in key order. */
  type Bundle = seq<(string, OutputItem)>

  /** The two fields of the build's shared state the plugin touches. */
  datatype BuildInternals = BuildInternals(discoveredScripts: set<string>, inlinedScripts: map<string, string>)

  /**
   * The output is inlined: a chunk with a facade module that is a discovered
   * hoisted script, with no static or dynamic imports, whose code takes at
   * most `limit` bytes in UTF-8 (`Buffer.byteLength`, not the character count).
   */
  predicate Inlinable(discovered: set<string>, limit: int, o: OutputItem): (b: bool)
    ensures b ==> o.Chunk? && o.facadeModuleId.Some? && o.facadeModuleId.value in discovered
    ensures b ==> 0 <= |o.code| <= limit
  {
    && o.Chunk?
    && Truthy(o.facadeModuleId)
    && o.facadeModuleId.value in discovered
    && |o.imports| == 0
    && |o.dynamicImports| == 0
    && Utf8Length(o.code) <= limit
  }

  /**
   * The byte limit in terms of characters: a self-contained hoisted chunk is
   * inlined whenever it has at most a quarter of `limit` characters, and pure
   * ASCII code is inlined exactly when it has at most `limit` characters.
   */
  lemma InlinableByCharCount(discovered: set<string>, limit: int, o: OutputItem)
    requires o.Chunk? && Truthy(o.facadeModuleId) && o.facadeModuleId.value in discovered
    requires o.imports == [] && o.dynamicImports == []
    ensures 4 * |o.code| <= limit ==> Inlinable(discovered, limit, o)
    ensures IsAscii(o.code) ==> (Inlinable(discovered, limit, o) <==> |o.code| <= limit)
  {
  }

  /** The output is inlined under the script identifier `f`. */
  predicate InlinesAs(discovered: set<string>, limit: int, o: OutputItem, f: string) {
    Inlinable(discovered, limit, o) && o.facadeModuleId.value == f
  }

  /** Entry `i` is the last entry of `b` inlined under `f`: its code is what `f` ends up with. */
  predicate LastInlining(discovered: set<string>, limit: int, b: Bundle, i: int, f: string)
    requires 0 <= i < |b|
  {
    InlinesAs(discovered, limit, b[i].1, f) && forall j :: i < j < |b| ==> !InlinesAs(discovered, limit, b[j].1, f)
  }

  /** The entries of `b` that stay in the bundle, in their order. */
  function KeptEntries(discovered: set<string>, limit: int, b: Bundle): (r: Bundle)
    ensures forall e :: e in r <==> e in b && !Inlinable(discovered, limit, e.1)
    ensures |r| <= |b|
  {
    if b == [] then []
    else
      var init := b[..|b| - 1];
      var last := b[|b| - 1];
      var r := KeptEntries(discovered, limit, init);
      assert forall e :: e in b <==> e in init || e == last by {
        assert b == init + [last];
      }
      if Inlinable(discovered, limit, last.1) then r else r + [last]
  }

  /**
   * The scripts map after the entries of `b` have been visited in order,
   * starting from `m`: every inlined entry writes its trimmed code under its
   * facade module, so the last such entry wins, and nothing else changes.
   */
  function InlinedAfter(discovered: set<string>, limit: int, m: map<string, string>, b: Bundle): (r: map<string, string>)
    ensures forall f :: f in r <==> f in m || exists i :: 0 <= i < |b| && InlinesAs(discovered, limit, b[i].1, f)
    ensures forall i, f :: 0 <= i < |b| && LastInlining(discovered, limit, b, i, f) ==>
      f in r && r[f] == Trim(b[i].1.code)
    ensures forall f :: f in m && (forall i :: 0 <= i < |b| ==> !InlinesAs(discovered, limit, b[i].1, f)) ==>
      r[f] == m[f]
  {
    if b == [] then m
    else
      var init := b[..|b| - 1];
      var last := b[|b| - 1].1;
      var r := InlinedAfter(discovered, limit, m, init);
      assert forall i :: 0 <= i < |init| ==> init[i] == b[i];
      if Inlinable(discovered, limit, last) then
        InlinedAfterStep(discovered, limit, m, b, r);
        r[last.facadeModuleId.value := Trim(last.code)]
      else
        InlinedAfterSkip(discovered, limit, m, b, r);
        r
  }

  /** The facts `InlinedAfter` states, carried from `init` to `init + [last]` when `last` is inlined. */
  lemma InlinedAfterStep(discovered: set<string>, limit: int, m: map<string, string>, b: Bundle, r: map<string, string>)
    requires b != [] && Inlinable(discovered, limit, b[|b| - 1].1)
    requires forall f :: f in r <==> f in m || exists i :: 0 <= i < |b| - 1 && InlinesAs(discovered, limit, b[i].1, f)
    requires forall i, f :: 0 <= i < |b| - 1 && LastInlining(discovered, limit, b[..|b| - 1], i, f) ==>
      f in r && r[f] == Trim(b[i].1.code)
    requires forall f :: f in m && (forall i :: 0 <= i < |b| - 1 ==> !InlinesAs(discovered, limit, b[i].1, f)) ==>
      r[f] == m[f]
    ensures var r' := r[b[|b| - 1].1.facadeModuleId.value := Trim(b[|b| - 1].1.code)];
      && (forall f :: f in r' <==> f in m || exists i :: 0 <= i < |b| && InlinesAs(discovered, limit, b[i].1, f))
      && (forall i, f :: 0 <= i < |b| && LastInlining(discovered, limit, b, i, f) ==> f in r' && r'[f] == Trim(b[i].1.code))
      && (forall f :: f in m && (forall i :: 0 <= i < |b| ==> !InlinesAs(discovered, limit, b[i].1, f)) ==> r'[f] == m[f])
  {
    var n := |b| - 1;
    var g := b[n].1.facadeModuleId.value;
    var r' := r[g := Trim(b[n].1.code)];
    assert InlinesAs(discovered, limit, b[n].1, g);
    forall i, f | 0 <= i < |b| && LastInlining(discovered, limit, b, i, f)
      ensures f in r' && r'[f] == Trim(b[i].1.code)
    {
      if f == g {
        assert i == n;
      } else {
        assert i < n;
        assert LastInlining(discovered, limit, b[..n], i, f) by {
          assert forall j :: i < j < n ==> b[..n][j] == b[j];
        }
      }
    }
    forall f | f in m && (forall i :: 0 <= i < |b| ==> !InlinesAs(discovered, limit, b[i].1, f))
      ensures r'[f] == m[f]
    {
      assert f != g;
    }
  }

  /** The facts `InlinedAfter` states, carried from `init` to `init + [last]` when `last` stays. */
  lemma InlinedAfterSkip(discovered: set<string>, limit: int, m: map<string, string>, b: Bundle, r: map<string, string>)
    requires b != [] && !Inlinable(discovered, limit, b[|b| - 1].1)
    requires forall f :: f in r <==> f in m || exists i :: 0 <= i < |b| - 1 && InlinesAs(discovered, limit, b[i].1, f)
    requires forall i, f :: 0 <= i < |b| - 1 && LastInlining(discovered, limit, b[..|b| - 1], i, f) ==>
      f in r && r[f] == Trim(b[i].1.code)
    requires forall f :: f in m && (forall i :: 0 <= i < |b| - 1 ==> !InlinesAs(discovered, limit, b[i].1, f)) ==>
      r[f] == m[f]
    ensures forall f :: f in r <==> f in m || exists i :: 0 <= i < |b| && InlinesAs(discovered, limit, b[i].1, f)
    ensures forall i, f :: 0 <= i < |b| && LastInlining(discovered, limit, b, i, f) ==> f in r && r[f] == Trim(b[i].1.code)
    ensures forall f :: f in m && (forall i :: 0 <= i < |b| ==> !InlinesAs(discovered, limit, b[i].1, f)) ==> r[f] == m[f]
  {
    var n := |b| - 1;
    forall i, f | 0 <= i < |b| && LastInlining(discovered, limit, b, i, f)
      ensures f in r && r[f] == Trim(b[i].1.code)
    {
      assert i < n;
      assert LastInlining(discovered, limit, b[..n], i, f) by {
        assert forall j :: i < j < n ==> b[..n][j] == b[j];
      }
    }
  }

  /**
   * `generateBundle`: visits the bundle's entries in order; each inlinable
   * chunk has its trimmed code recorded under its facade module and is
   * deleted from the bundle.
   */
  method GenerateBundle(internals: BuildInternals, limit: int, bundle: Bundle)
    returns (after: BuildInternals, remaining: Bundle)
    ensures after.discoveredScripts == internals.discoveredScripts
    ensures remaining == KeptEntries(internals.discoveredScripts, limit, bundle)
    ensures after.inlinedScripts == InlinedAfter(internals.discoveredScripts, limit, internals.inlinedScripts, bundle)
    ensures forall e :: e in remaining <==> e in bundle && !Inlinable(internals.discoveredScripts, limit, e.1)
    ensures forall f :: f in after.inlinedScripts <==>
      f in internals.inlinedScripts ||
      exists i :: 0 <= i < |bundle| && InlinesAs(internals.discoveredScripts, limit, bundle[i].1, f)
  {
    var discovered := internals.discoveredScripts;
    var inlined := internals.inlinedScripts;
    remaining := [];
    var k := 0;
    while k < |bundle|
      invariant 0 <= k <= |bundle|
      invariant remaining == KeptEntries(discovered, limit, bundle[..k])
      invariant inlined == InlinedAfter(discovered, limit, internals.inlinedScripts, bundle[..k])
    {
      var output := bundle[k].1;
      assert bundle[..k + 1][..k] == bundle[..k];
      if Inlinable(discovered, limit, output) {
        inlined := inlined[output.facadeModuleId.value := Trim(output.code)];
      } else {
        remaining := remaining + [bundle[k]];
      }
      k := k + 1;
    }
    assert bundle[..k] == bundle;
    after := internals.(inlinedScripts := inlined);
  }

  /** Deleting entries keeps the bundle's order: the kept part of `a + b` is the kept part of `a`, then of `b`. */
  lemma {:induction false} KeptEntriesConcat(discovered: set<string>, limit: int, a: Bundle, b: Bundle)
    ensures KeptEntries(discovered, limit, a + b) == KeptEntries(discovered, limit, a) + KeptEntries(discovered, limit, b)
    decreases |b|
  {
    if b == [] {
      assert a + b == a;
    } else {
      var init := b[..|b| - 1];
      assert (a + b)[..|a + b| - 1] == a + init;
      assert (a + b)[|a + b| - 1] == b[|b| - 1];
      KeptEntriesConcat(discovered, limit, a, init);
    }
  }

  /** A second run over what the first run left finds nothing more to inline. */
  lemma {:induction false} SecondPassKeepsAll(discovered: set<string>, limit: int, b: Bundle)
    ensures KeptEntries(discovered, limit, KeptEntries(discovered, limit, b)) == KeptEntries(discovered, limit, b)
  {
    var r := KeptEntries(discovered, limit, b);
    NothingInlinableKept(discovered, limit, r);
  }

  lemma {:induction false} NothingInlinableKept(discovered: set<string>, limit: int, b: Bundle)
    requires forall e :: e in b ==> !Inlinable(discovered, limit, e.1)
    ensures KeptEntries(discovered, limit, b) == b
    decreases |b|
  {
    if b != [] {
      var init := b[..|b| - 1];
      assert forall e :: e in init ==> e in b;
      NothingInlinableKept(discovered, limit, init);
      assert b[|b| - 1] in b;
      assert init + [b[|b| - 1]] == b;
    }
  }

  /** The size test is inclusive: code of exactly `limit` bytes is inlined, one byte more is not. */
  lemma InlineLimitInclusive(discovered: set<string>, limit: int, f: string, code: string)
    requires f != "" && f in discovered
    ensures Utf8Length(code) == limit ==> Inlinable(discovered, limit, Chunk(Some(f), [], [], code))
    ensures Utf8Length(code) == limit + 1 ==> !Inlinable(discovered, limit, Chunk(Some(f), [], [], code))
  {
  }

  /** The limit counts bytes, not characters: two euro signs take six bytes. */
  lemma LimitCountsBytes(discovered: set<string>, f: string)
    requires f != "" && f in discovered
    ensures !Inlinable(discovered, 5, Chunk(Some(f), [], [], "\U{20AC}\U{20AC}"))
  {
    var code := "\U{20AC}\U{20AC}";
    assert Utf8Width('\U{20AC}') == 3;
    assert code[1..] == "\U{20AC}";
    assert Utf8Length(code) == 6 by {
      assert Utf8Length(code[1..]) == 3 by {
        assert code[1..][1..] == [];
      }
    }
  }
}
