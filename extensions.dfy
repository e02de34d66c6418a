/** The OpenGL extension handler: which extensions the driver advertises,
    the capability flags derived from them, the texture-unit clamp, and the
    answer to "does the driver support feature X". The GL queries become
    method inputs. */
module OpenGLExtensions {

  // ---------------------------------------------------------------------
  // The feature table

  /** Number of entries of the feature table in this model: the
      extensions the handler itself refers to. */
  const FeatureCount: nat := 13

  const ARB_fragment_program: nat := 0
  const ARB_multisample: nat := 1
  const ARB_multitexture: nat := 2
  const ARB_shading_language_100: nat := 3
  const ARB_texture_compression: nat := 4
  const ARB_texture_non_power_of_two: nat := 5
  const ARB_vertex_program: nat := 6
  const ATI_separate_stencil: nat := 7
  const EXT_framebuffer_object: nat := 8
  const EXT_packed_depth_stencil: nat := 9
  const EXT_separate_specular_color: nat := 10
  const EXT_texture_filter_anisotropic: nat := 11
  const SGIS_generate_mipmap: nat := 12

  /** The name each feature is advertised under. */
  function FeatureName(f: nat): string
    requires f < FeatureCount
  {
    [
      "GL_ARB_fragment_program", "GL_ARB_multisample", "GL_ARB_multitexture",
      "GL_ARB_shading_language_100", "GL_ARB_texture_compression",
      "GL_ARB_texture_non_power_of_two", "GL_ARB_vertex_program",
      "GL_ATI_separate_stencil", "GL_EXT_framebuffer_object",
      "GL_EXT_packed_depth_stencil", "GL_EXT_separate_specular_color",
      "GL_EXT_texture_filter_anisotropic", "GL_SGIS_generate_mipmap"
    ][f]
  }

  /** MATERIAL_MAX_TEXTURES: texture layers a material can use. */
  const MaterialMaxTextures: int := 4

  // ---------------------------------------------------------------------
  // Substring search

  /** `name` occurs in `t` starting at position k. */
  predicate OccursAt(t: string, name: string, k: nat)
  {
    k + |name| <= |t| && t[k..k + |name|] == name
  }

  /** `name` is a substring of `t`. */
  predicate Occurs(t: string, name: string)
  {
    exists k: nat :: k <= |t| && OccursAt(t, name, k)
  }

  /** strstr(t, name) != NULL: tries every start position left to right. */
  function StrStr(t: string, name: string): (found: bool)
    ensures found <==> Occurs(t, name)
    decreases |t|
  {
    if |t| < |name| then
      NoRoom(t, name);
      false
    else if t[..|name|] == name then
      assert OccursAt(t, name, 0);
      true
    else
      ShiftOccurs(t, name);
      StrStr(t[1..], name)
  }

  lemma NoRoom(t: string, name: string)
    requires |t| < |name|
    ensures !Occurs(t, name)
  {
  }

  /** When `name` is not at the front of `t`, it occurs in `t` iff it occurs
      in `t` without its first character. */
  lemma ShiftOccurs(t: string, name: string)
    requires |t| >= |name| && t[..|name|] != name
    ensures Occurs(t, name) <==> Occurs(t[1..], name)
  {
    if Occurs(t, name) {
      var k: nat :| k <= |t| && OccursAt(t, name, k);
      assert k != 0;
      assert t[1..][k - 1..k - 1 + |name|] == t[k..k + |name|];
      assert OccursAt(t[1..], name, k - 1);
    }
    if Occurs(t[1..], name) {
      var k: nat :| k <= |t[1..]| && OccursAt(t[1..], name, k);
      assert t[k + 1..k + 1 + |name|] == t[1..][k..k + |name|];
      assert OccursAt(t, name, k + 1);
    }
  }

  // ---------------------------------------------------------------------
  // Tokens of the extension string

  /** The fallback parser's view of the prefix `s` of the extension
      string: the tokens closed by a space so far, in order, and where the
      still open token begins. */
  function Scan(s: string): (r: (seq<string>, nat))
    ensures r.1 <= |s|
    decreases |s|
  {
    if |s| == 0 then ([], 0)
    else
      var (tokens, p) := Scan(s[..|s| - 1]);
      if s[|s| - 1] == ' ' then (tokens + [s[p..|s| - 1]], |s|) else (tokens, p)
  }

  /** The tokens of `s` the parser examines: each maximal run of characters
      that a space ends. */
  function Tokens(s: string): seq<string>
  {
    Scan(s).0
  }

  /** Feature `name` is advertised by the extension string `s`: it is a
      substring of some space-terminated token. */
  predicate Advertised(s: string, name: string)
  {
    exists t :: t in Tokens(s) && Occurs(t, name)
  }

  /** No token contains a space, and the open token has none either. */
  lemma {:induction false} TokensHaveNoSpace(s: string)
    ensures forall t :: t in Tokens(s) ==> ' ' !in t
    ensures ' ' !in s[Scan(s).1..]
    decreases |s|
  {
    if |s| > 0 {
      var u := s[..|s| - 1];
      TokensHaveNoSpace(u);
      assert s[..|s| - 1][Scan(u).1..] == s[Scan(u).1..|s| - 1];
    }
  }

  /** A trailing run without a space is never examined: appending it to
      the extension string adds no token. */
  lemma {:induction false} TrailingTokenIgnored(s: string, t: string)
    requires ' ' !in t
    ensures Tokens(s + t) == Tokens(s)
    ensures Scan(s + t).1 == Scan(s).1
    decreases |t|
  {
    if |t| == 0 {
      assert s + t == s;
    } else {
      var u := t[..|t| - 1];
      TrailingTokenIgnored(s, u);
      assert (s + t)[..|s + t| - 1] == s + u;
      assert (s + t)[|s + t| - 1] == t[|t| - 1];
      assert t[|t| - 1] in t;
    }
  }

  /** A string with no space holds no token at all, and its open token
      starts at the beginning. */
  lemma NoSpaceNoTokens(t: string)
    requires ' ' !in t
    ensures Tokens(t) == []
    ensures Scan(t).1 == 0
  {
    var e: string := [];
    TrailingTokenIgnored(e, t);
    assert e + t == t;
  }

  /** A space-free word followed by a space is the first token, and the
      rest of the string is tokenised on its own. With NoSpaceNoTokens this
      pins Tokens down: every space-ended word is a token, in order. */
  lemma TokensSplit(a: string, b: string)
    requires ' ' !in a
    ensures Tokens(a + " " + b) == [a] + Tokens(b)
  {
    var w := a + " ";
    NoSpaceNoTokens(a);
    assert w[..|w| - 1] == a;
    assert w[0..|w| - 1] == a;
    assert Scan(w) == ([] + [a], |w|);
    ScanAfterSpace(w, b);
    assert a + " " + b == w + b;
  }

  /** Once a prefix ends in a space the scan of the rest starts afresh:
      its tokens follow the prefix's, and the open token is shifted by the
      prefix's length. */
  lemma {:induction false} ScanAfterSpace(a: string, b: string)
    requires |a| > 0 && a[|a| - 1] == ' '
    ensures Scan(a + b) == (Scan(a).0 + Scan(b).0, |a| + Scan(b).1)
    decreases |b|
  {
    assert Scan(a).1 == |a|;
    if |b| == 0 {
      assert a + b == a;
      assert Scan(b) == ([], 0);
      assert Scan(a).0 + Scan(b).0 == Scan(a).0;
    } else {
      var u := b[..|b| - 1];
      ScanAfterSpace(a, u);
      var ab := a + b;
      assert ab[..|ab| - 1] == a + u;
      assert ab[|ab| - 1] == b[|b| - 1];
      var q := Scan(u).1;
      if b[|b| - 1] == ' ' {
        assert ab[|a| + q..|ab| - 1] == b[q..|b| - 1];
        assert Scan(ab) == (Scan(a + u).0 + [ab[|a| + q..|ab| - 1]], |ab|);
        assert Scan(b) == (Scan(u).0 + [b[q..|b| - 1]], |b|);
        assert Scan(a).0 + Scan(u).0 + [b[q..|b| - 1]] == Scan(a).0 + (Scan(u).0 + [b[q..|b| - 1]]);
      } else {
        assert Scan(ab) == Scan(a + u);
        assert Scan(b) == Scan(u);
      }
    }
  }

  // ---------------------------------------------------------------------
  // The handler

  /** The queryFeature switch's subjects. */
  datatype VideoDriverFeature =
    | RenderToTarget | Multitexture | BilinearFilter | MipMap | MipMapAutoUpdate
    | StencilBuffer | ArbVertexProgram1 | ArbFragmentProgram1 | ArbGlsl
    | TextureNpot | FramebufferObject | OtherFeature

  /** The texture-unit count kept after initExtensions: the queried GLint
      reinterpreted as unsigned, then limited to MaterialMaxTextures. */
  function ClampTextureUnits(queried: int): (units: int)
    requires -0x8000_0000 <= queried < 0x8000_0000
    ensures 0 <= units <= MaterialMaxTextures
    ensures 0 <= queried <= MaterialMaxTextures ==> units == queried
    ensures queried < 0 || queried > MaterialMaxTextures ==> units == MaterialMaxTextures
  {
    var unsigned := if queried < 0 then queried + 0x1_0000_0000 else queried;
    if unsigned < MaterialMaxTextures then unsigned else MaterialMaxTextures
  }

  class ExtensionHandler {
    var StencilBuffer: bool
    var MultiTextureExtension: bool
    var MultiSamplingExtension: bool
    var AnisotropyExtension: bool
    var SeparateStencilExtension: bool
    var TextureCompressionExtension: bool
    var PackedDepthStencilExtension: bool
    var SeparateSpecularColorExtension: bool
    var MaxTextureUnits: int
    var MaxLights: int
    var MaxIndices: int
    const FeatureAvailable: array<bool>

    ghost predicate Valid()
      reads this
    {
      FeatureAvailable.Length == FeatureCount
    }

    /** Every flag the constructor names starts false, every count at 1,
        and no feature is available. SeparateSpecularColorExtension is not
        initialised, so nothing is promised about it. */
    constructor ()
      ensures Valid() && fresh(FeatureAvailable)
      ensures !StencilBuffer && !MultiTextureExtension && !MultiSamplingExtension && !AnisotropyExtension
      ensures !SeparateStencilExtension && !TextureCompressionExtension && !PackedDepthStencilExtension
      ensures MaxTextureUnits == 1 && MaxLights == 1 && MaxIndices == 1
      ensures forall f :: 0 <= f < FeatureCount ==> !FeatureAvailable[f]
    {
      StencilBuffer := false;
      MultiTextureExtension := false;
      MultiSamplingExtension := false;
      AnisotropyExtension := false;
      SeparateStencilExtension := false;
      TextureCompressionExtension := false;
      PackedDepthStencilExtension := false;
      MaxTextureUnits := 1;
      MaxLights := 1;
      MaxIndices := 1;
      var available := new bool[FeatureCount];
      for i := 0 to FeatureCount
        invariant forall f :: 0 <= f < i ==> !available[f]
      {
        available[i] := false;
      }
      FeatureAvailable := available;
    }

    /** initExtensions without GLU: parses the extension string, derives the
        flags and stores the queried limits. `maxTextureUnits`, `maxLights`
        and `maxIndices` are what the driver reports; `entryPointsLoaded`
        says whether both multitexture entry points were found (always true
        where they are linked directly). */
    method InitExtensions(extensions: string, stencilBuffer: bool, maxTextureUnits: int, maxLights: int,
                          maxIndices: int, entryPointsLoaded: bool)
      requires Valid()
      requires -0x8000_0000 <= maxTextureUnits < 0x8000_0000
      modifies this, FeatureAvailable
      ensures Valid()
      ensures forall f :: 0 <= f < FeatureCount ==>
        FeatureAvailable[f] == (old(FeatureAvailable[f]) || Advertised(extensions, FeatureName(f)))
      ensures MultiTextureExtension == (FeatureAvailable[ARB_multitexture] && entryPointsLoaded && maxTextureUnits >= 2)
      ensures (MultiSamplingExtension, AnisotropyExtension, SeparateStencilExtension,
               TextureCompressionExtension, PackedDepthStencilExtension, SeparateSpecularColorExtension)
           == (FeatureAvailable[ARB_multisample], FeatureAvailable[EXT_texture_filter_anisotropic],
               FeatureAvailable[ATI_separate_stencil], FeatureAvailable[ARB_texture_compression],
               FeatureAvailable[EXT_packed_depth_stencil], FeatureAvailable[EXT_separate_specular_color])
      ensures StencilBuffer == stencilBuffer
      ensures MaxTextureUnits == ClampTextureUnits(maxTextureUnits)
      ensures MaxLights == maxLights && MaxIndices == maxIndices
    {
      ParseExtensions(extensions);
      DeriveFlags(stencilBuffer);
      StoreLimits(maxTextureUnits, maxLights, maxIndices, entryPointsLoaded);
    }

    /** Stores the queried limits; multitexturing is switched off when its
        entry points are missing or fewer than two units exist. */
    method StoreLimits(maxTextureUnits: int, maxLights: int, maxIndices: int, entryPointsLoaded: bool)
      requires -0x8000_0000 <= maxTextureUnits < 0x8000_0000
      modifies this`MultiTextureExtension, this`MaxTextureUnits, this`MaxLights, this`MaxIndices
      ensures MultiTextureExtension == (old(MultiTextureExtension) && entryPointsLoaded && maxTextureUnits >= 2)
      ensures MaxTextureUnits == ClampTextureUnits(maxTextureUnits)
      ensures MaxLights == maxLights && MaxIndices == maxIndices
    {
      MaxTextureUnits := maxTextureUnits;
      MaxLights := maxLights;
      if !entryPointsLoaded {
        MultiTextureExtension := false;
      } else if MaxTextureUnits < 2 {
        MultiTextureExtension := false;
      }
      MaxTextureUnits := ClampTextureUnits(MaxTextureUnits);
      MaxIndices := maxIndices;
    }

    /** Copies the parsed table into the extension flags. */
    method DeriveFlags(stencilBuffer: bool)
      requires Valid()
      modifies this
      ensures Valid()
      ensures (MultiTextureExtension, MultiSamplingExtension, AnisotropyExtension, SeparateStencilExtension,
               TextureCompressionExtension, PackedDepthStencilExtension, SeparateSpecularColorExtension)
           == (FeatureAvailable[ARB_multitexture], FeatureAvailable[ARB_multisample],
               FeatureAvailable[EXT_texture_filter_anisotropic], FeatureAvailable[ATI_separate_stencil],
               FeatureAvailable[ARB_texture_compression], FeatureAvailable[EXT_packed_depth_stencil],
               FeatureAvailable[EXT_separate_specular_color])
      ensures StencilBuffer == stencilBuffer
      ensures MaxTextureUnits == old(MaxTextureUnits) && MaxLights == old(MaxLights) && MaxIndices == old(MaxIndices)
    {
      MultiTextureExtension := FeatureAvailable[ARB_multitexture];
      MultiSamplingExtension := FeatureAvailable[ARB_multisample];
      AnisotropyExtension := FeatureAvailable[EXT_texture_filter_anisotropic];
      SeparateStencilExtension := FeatureAvailable[ATI_separate_stencil];
      TextureCompressionExtension := FeatureAvailable[ARB_texture_compression];
      PackedDepthStencilExtension := FeatureAvailable[EXT_packed_depth_stencil];
      SeparateSpecularColorExtension := FeatureAvailable[EXT_separate_specular_color];
      StencilBuffer := stencilBuffer;
    }

    /** The fallback parser: walks the extension string and, at every
        space, matches the token that space closes against every feature
        name. Entries are only ever set, never cleared. */
    method ParseExtensions(extensions: string)
      requires Valid()
      modifies FeatureAvailable
      ensures forall f :: 0 <= f < FeatureCount ==>
        FeatureAvailable[f] == (old(FeatureAvailable[f]) || Advertised(extensions, FeatureName(f)))
    {
      var p := 0;
      ghost var tokens: seq<string> := [];
      for i := 0 to |extensions|
        invariant (tokens, p) == Scan(extensions[..i])
        invariant forall f :: 0 <= f < FeatureCount ==>
          FeatureAvailable[f] == (old(FeatureAvailable[f]) || exists t :: t in tokens && Occurs(t, FeatureName(f)))
      {
        assert extensions[..i + 1][..i] == extensions[..i];
        if extensions[i] == ' ' {
          assert extensions[..i + 1][p..i] == extensions[p..i];
          MatchToken(extensions[p..i]);
          tokens := tokens + [extensions[p..i]];
          p := i + 1;
        }
      }
      assert extensions[..|extensions|] == extensions;
    }

    /** Marks every feature whose name occurs in `token`. */
    method MatchToken(token: string)
      requires Valid()
      modifies FeatureAvailable
      ensures forall f :: 0 <= f < FeatureCount ==>
        FeatureAvailable[f] == (old(FeatureAvailable[f]) || Occurs(token, FeatureName(f)))
    {
      for f := 0 to FeatureCount
        invariant forall g :: 0 <= g < f ==>
          FeatureAvailable[g] == (old(FeatureAvailable[g]) || Occurs(token, FeatureName(g)))
        invariant forall g :: f <= g < FeatureCount ==> FeatureAvailable[g] == old(FeatureAvailable[g])
      {
        if StrStr(token, FeatureName(f)) {
          FeatureAvailable[f] := true;
        }
      }
    }

    /** queryFeature: a pure lookup in the flags and the feature table. */
    function QueryFeature(feature: VideoDriverFeature): (supported: bool)
      requires Valid()
      reads this, FeatureAvailable
    {
      match feature
      case RenderToTarget => true
      case Multitexture => MultiTextureExtension
      case BilinearFilter => true
      case MipMap => true
      case MipMapAutoUpdate => FeatureAvailable[SGIS_generate_mipmap]
      case StencilBuffer => StencilBuffer
      case ArbVertexProgram1 => FeatureAvailable[ARB_vertex_program]
      case ArbFragmentProgram1 => FeatureAvailable[ARB_fragment_program]
      case ArbGlsl => FeatureAvailable[ARB_shading_language_100]
      case TextureNpot => FeatureAvailable[ARB_texture_non_power_of_two]
      case FramebufferObject => FeatureAvailable[EXT_framebuffer_object]
      case OtherFeature => false
    }
  }

  /** What queryFeature should answer for a driver that advertises the
      extension string `s`, stated on the string itself: the always-on
      features, multitexturing only with its entry points and two units,
      the stencil buffer as the context reports it, and every other listed
      feature exactly when its extension name is advertised. */
  predicate Supports(s: string, feature: VideoDriverFeature, stencilBuffer: bool, maxTextureUnits: int,
                     entryPointsLoaded: bool)
  {
    match feature
    case RenderToTarget => true
    case Multitexture =>
      Advertised(s, "GL_ARB_multitexture") && entryPointsLoaded && maxTextureUnits >= 2
    case BilinearFilter => true
    case MipMap => true
    case MipMapAutoUpdate => Advertised(s, "GL_SGIS_generate_mipmap")
    case StencilBuffer => stencilBuffer
    case ArbVertexProgram1 => Advertised(s, "GL_ARB_vertex_program")
    case ArbFragmentProgram1 => Advertised(s, "GL_ARB_fragment_program")
    case ArbGlsl => Advertised(s, "GL_ARB_shading_language_100")
    case TextureNpot => Advertised(s, "GL_ARB_texture_non_power_of_two")
    case FramebufferObject => Advertised(s, "GL_EXT_framebuffer_object")
    case OtherFeature => false
  }

  /** A freshly constructed handler that has run initExtensions answers
      every feature query as the extension string says. */
  method CreateHandler(extensions: string, stencilBuffer: bool, maxTextureUnits: int, maxLights: int,
                       maxIndices: int, entryPointsLoaded: bool)
    returns (h: ExtensionHandler)
    requires -0x8000_0000 <= maxTextureUnits < 0x8000_0000
    ensures fresh(h) && fresh(h.FeatureAvailable) && h.Valid()
    ensures forall feature ::
      h.QueryFeature(feature) == Supports(extensions, feature, stencilBuffer, maxTextureUnits, entryPointsLoaded)
    ensures h.MaxTextureUnits == ClampTextureUnits(maxTextureUnits)
  {
    h := new ExtensionHandler();
    h.InitExtensions(extensions, stencilBuffer, maxTextureUnits, maxLights, maxIndices, entryPointsLoaded);
    forall feature
      ensures h.QueryFeature(feature) == Supports(extensions, feature, stencilBuffer, maxTextureUnits, entryPointsLoaded)
    {
      QueryMatchesSupports(h, extensions, feature, stencilBuffer, maxTextureUnits, entryPointsLoaded);
    }
  }

  /** Once every table entry is exactly "advertised" and the multitexture
      and stencil flags are as initExtensions sets them, queryFeature
      agrees with Supports. */
  lemma QueryMatchesSupports(h: ExtensionHandler, s: string, feature: VideoDriverFeature, stencilBuffer: bool,
                             maxTextureUnits: int, entryPointsLoaded: bool)
    requires h.Valid()
    requires forall f :: 0 <= f < FeatureCount ==> h.FeatureAvailable[f] == Advertised(s, FeatureName(f))
    requires h.MultiTextureExtension ==
      (h.FeatureAvailable[ARB_multitexture] && entryPointsLoaded && maxTextureUnits >= 2)
    requires h.StencilBuffer == stencilBuffer
    ensures h.QueryFeature(feature) == Supports(s, feature, stencilBuffer, maxTextureUnits, entryPointsLoaded)
  {
  }
}
