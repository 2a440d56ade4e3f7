/** The text side of shader creation in the OpenGL render context
    (engine/src/render_context_gl.cpp): cleaning a source down to the
    bytes a GLSL compiler accepts, prepending `#define` lines, assembling a
    shader from two files or from a base shader with its placeholder
    functions replaced, and the define pairs of a render pass.

    File reading, compilation, linking and the allocation of the sShader
    from the memory pool are outside the model; the file contents are
    inputs. Characters stand for the bytes of std::string. */
module ShaderText {
  import opened Base

  // ---------------------------------------------------------------------
  // CleanShaderSource

  /** The bytes CleanShaderSource keeps: tab, LF, CR and 32..126. */
  predicate Allowed(c: char)
  {
    c == '\t' || c == '\n' || c == '\r' || (' ' <= c <= '~')
  }

  predicate AllAllowed(s: string)
  {
    forall i :: 0 <= i < |s| ==> Allowed(s[i])
  }

  /** The allowed bytes of s, in their order. */
  function Cleaned(s: string): (r: string)
    ensures |r| <= |s|
    ensures AllAllowed(r)
  {
    if s == [] then []
    else Cleaned(s[..|s| - 1]) + (if Allowed(s[|s| - 1]) then [s[|s| - 1]] else [])
  }

  /** Cleaning distributes over concatenation. */
  lemma {:induction false} CleanedAppend(a: string, b: string)
    ensures Cleaned(a + b) == Cleaned(a) + Cleaned(b)
    decreases |b|
  {
    if b == [] {
      assert a + b == a;
    } else {
      assert (a + b)[..|a + b| - 1] == a + b[..|b| - 1];
      CleanedAppend(a, b[..|b| - 1]);
    }
  }

  /** A text of allowed bytes only is left as it is. */
  lemma {:induction false} CleanedOfAllowed(s: string)
    requires AllAllowed(s)
    ensures Cleaned(s) == s
  {
    if s != [] {
      CleanedOfAllowed(s[..|s| - 1]);
    }
  }

  /** Cleaning twice is cleaning once. */
  lemma CleanedIdempotent(s: string)
    ensures Cleaned(Cleaned(s)) == Cleaned(s)
  {
    CleanedOfAllowed(Cleaned(s));
  }

  /** Every allowed byte keeps all its occurrences, and no other byte
      survives: the result is the in-order subsequence of allowed bytes. */
  lemma {:induction false} CleanedKeepsAllowed(s: string, c: char)
    ensures Occurrences(Cleaned(s), c) == if Allowed(c) then Occurrences(s, c) else 0
  {
    if s != [] {
      var init, last := s[..|s| - 1], s[|s| - 1];
      CleanedKeepsAllowed(init, c);
      OccurrencesAppend(Cleaned(init), if Allowed(last) then [last] else [], c);
    }
  }

  /** CleanShaderSource(src): the loop that pushes back each allowed byte. */
  method CleanShaderSource(src: string) returns (out: string)
    ensures out == Cleaned(src)
  {
    out := "";
    var i := 0;
    while i < |src|
      invariant i <= |src|
      invariant out == Cleaned(src[..i])
    {
      var c := src[i];
      assert src[..i + 1][..i] == src[..i];
      if c == '\t' || c == '\n' || c == '\r' || (c >= ' ' && c <= '~') {
        out := out + [c];
      }
      i := i + 1;
    }
    assert src[..|src|] == src;
  }

  // ---------------------------------------------------------------------
  // DefineInShader

  /** sShader::sDefinePair. */
  datatype DefinePair = DefinePair(name: string, index: nat)

  /** `"#define " + Name + " " + std::to_string(Index) + "\n"`. */
  function DefineLine(p: DefinePair): string
  {
    "#define " + p.name + " " + Decimal(p.index) + "\n"
  }

  /** The lines of all pairs, in list order. */
  function DefineBlock(pairs: seq<DefinePair>): string
  {
    if pairs == [] then "" else DefineBlock(pairs[..|pairs| - 1]) + DefineLine(pairs[|pairs| - 1])
  }

  /** A define line ends its only line break, when the name has none. */
  lemma DefineLineIsOneLine(p: DefinePair)
    requires Occurrences(p.name, '\n') == 0
    ensures Occurrences(DefineLine(p), '\n') == 1
  {
    DigitsHaveNoLineBreak(Decimal(p.index));
    OccurrencesAppend("#define ", p.name, '\n');
    OccurrencesAppend("#define " + p.name, " ", '\n');
    OccurrencesAppend("#define " + p.name + " ", Decimal(p.index), '\n');
    OccurrencesAppend("#define " + p.name + " " + Decimal(p.index), "\n", '\n');
    assert Occurrences("#define ", '\n') == 0 by {
      NoLineBreak("#define ");
    }
  }

  lemma {:induction false} NoLineBreak(s: string)
    requires forall i :: 0 <= i < |s| ==> s[i] != '\n'
    ensures Occurrences(s, '\n') == 0
  {
    if s != [] {
      NoLineBreak(s[..|s| - 1]);
    }
  }

  lemma DigitsHaveNoLineBreak(s: string)
    requires IsDigits(s)
    ensures Occurrences(s, '\n') == 0
  {
    NoLineBreak(s);
  }

  /** The define block has one line per pair, when no name holds a line
      break. */
  lemma {:induction false} DefineBlockLines(pairs: seq<DefinePair>)
    requires forall i :: 0 <= i < |pairs| ==> Occurrences(pairs[i].name, '\n') == 0
    ensures Occurrences(DefineBlock(pairs), '\n') == |pairs|
  {
    if pairs != [] {
      var init := pairs[..|pairs| - 1];
      DefineBlockLines(init);
      DefineLineIsOneLine(pairs[|pairs| - 1]);
      OccurrencesAppend(DefineBlock(init), DefineLine(pairs[|pairs| - 1]), '\n');
    }
  }

  /** The vertex and fragment texts of an sShader. */
  class Shader {
    var vertex: string
    var fragment: string

    /** sShader(): both texts empty. */
    constructor ()
      ensures vertex == "" && fragment == ""
    {
      vertex := "";
      fragment := "";
    }
  }

  /** DefineInShader(shader, definePairs): nothing for an empty list;
      otherwise the loop builds the lines of the pairs in order and they
      go in front of both texts. */
  method DefineInShader(shader: Shader, pairs: seq<DefinePair>)
    modifies shader
    ensures pairs == [] ==> shader.vertex == old(shader.vertex) && shader.fragment == old(shader.fragment)
    ensures shader.vertex == DefineBlock(pairs) + old(shader.vertex)
    ensures shader.fragment == DefineBlock(pairs) + old(shader.fragment)
  {
    if pairs != [] {
      var defineStr := "";
      var i := 0;
      while i < |pairs|
        invariant i <= |pairs|
        invariant defineStr == DefineBlock(pairs[..i])
      {
        assert pairs[..i + 1][..i] == pairs[..i];
        defineStr := defineStr + ("#define " + pairs[i].name + " " + Decimal(pairs[i].index) + "\n");
        i := i + 1;
      }
      assert pairs[..|pairs|] == pairs;
      shader.vertex := defineStr + shader.vertex;
      shader.fragment := defineStr + shader.fragment;
    }
  }

  // ---------------------------------------------------------------------
  // std::string::find and replace

  /** pat occurs in s at index i. */
  predicate OccursAt(s: string, pat: string, i: nat)
  {
    i + |pat| <= |s| && s[i..i + |pat|] == pat
  }

  /** The first occurrence of pat in s at index start or later. */
  function FindFrom(s: string, pat: string, start: nat): (r: Option<nat>)
    requires start <= |s|
    ensures r.Some? ==> start <= r.value && OccursAt(s, pat, r.value)
    ensures r.Some? ==> forall i :: start <= i < r.value ==> !OccursAt(s, pat, i)
    ensures r.None? <==> forall i :: start <= i <= |s| ==> !OccursAt(s, pat, i)
    decreases |s| - start
  {
    if OccursAt(s, pat, start) then Some(start)
    else if start == |s| then None
    else FindFrom(s, pat, start + 1)
  }

  /** std::string::find: the first occurrence, None for npos. */
  function Find(s: string, pat: string): (r: Option<nat>)
    ensures r.Some? ==> OccursAt(s, pat, r.value)
    ensures r.Some? ==> forall i :: 0 <= i < r.value ==> !OccursAt(s, pat, i)
    ensures r.None? <==> forall i :: 0 <= i <= |s| ==> !OccursAt(s, pat, i)
  {
    FindFrom(s, pat, 0)
  }

  /** The find-then-replace of CreateShader: the first occurrence of pat
      replaced by rep, the text unchanged when pat does not occur. */
  function ReplaceFirst(s: string, pat: string, rep: string): (r: string)
    ensures Find(s, pat).None? ==> r == s
    ensures Find(s, pat).Some? ==> |r| == |s| - |pat| + |rep|
  {
    match Find(s, pat)
    case None => s
    case Some(i) => s[..i] + rep + s[i + |pat|..]
  }

  /** Replacing keeps every byte outside the occurrence, in order: the
      text before it, then rep, then the text after it. */
  lemma ReplaceFirstSplits(s: string, pat: string, rep: string)
    requires Find(s, pat).Some?
    ensures var i := Find(s, pat).value;
            && s == s[..i] + pat + s[i + |pat|..]
            && ReplaceFirst(s, pat, rep) == s[..i] + rep + s[i + |pat|..]
  {
    var i := Find(s, pat).value;
    assert s == s[..i] + s[i..i + |pat|] + s[i + |pat|..];
  }

  /** Replacing within a text of allowed bytes by allowed bytes keeps it
      so. */
  lemma ReplaceFirstAllowed(s: string, pat: string, rep: string)
    requires AllAllowed(s) && AllAllowed(rep)
    ensures AllAllowed(ReplaceFirst(s, pat, rep))
  {
    match Find(s, pat)
    case None =>
    case Some(i) =>
      var r := s[..i] + rep + s[i + |pat|..];
      forall k | 0 <= k < |r|
        ensures Allowed(r[k])
      {
        if k < i {
          assert r[k] == s[k];
        } else if k < i + |rep| {
          assert r[k] == rep[k - i];
        } else {
          assert r[k] == s[k - |rep| + |pat|];
        }
      }
  }

  // ---------------------------------------------------------------------
  // CreateShader(renderPath, vertexPath, fragmentPath, definePairs)

  /** eCategory as CreateShader sees it: the six render paths and every
      other enumerator, which the switch has no case for. */
  datatype Category =
    | RenderPathNone | RenderPathOpaque | RenderPathTransparent | RenderPathText
    | RenderPathTransparentComposite | RenderPathQuad | OtherCategory(value: nat)

  /** The header the switch chooses: the render path's own name, empty for
      an enumerator without a case. */
  function HeaderOf(path: Category): (header: string)
    requires !path.RenderPathNone?
    ensures header == "" <==> path.OtherCategory?
    ensures !path.OtherCategory? ==> "RENDER_PATH_" <= header
  {
    match path
    case RenderPathOpaque => "RENDER_PATH_OPAQUE"
    case RenderPathTransparent => "RENDER_PATH_TRANSPARENT"
    case RenderPathText => "RENDER_PATH_TEXT"
    case RenderPathTransparentComposite => "RENDER_PATH_TRANSPARENT_COMPOSITE"
    case RenderPathQuad => "RENDER_PATH_QUAD"
    case OtherCategory(_) => ""
  }

  const VERSION: string := "#version 430"

  /** The line pair that opens every shader text: the version line and an
      empty line. */
  const VERSION_HEADER: string := "#version 430\n\n"

  /** `"#version 430\n\n#define " + header + "\n\n"`. */
  function FileHeader(header: string): string
  {
    VERSION_HEADER + "#define " + header + "\n\n"
  }

  /** A shader text CreateShader(renderPath, ...) assembles from a file:
      the version and header lines, the defines, then the file's text up
      to its NUL, cleaned. */
  function FileShaderText(header: string, pairs: seq<DefinePair>, file: string): string
  {
    FileHeader(header) + (DefineBlock(pairs) + Cleaned(CString(file)))
  }

  /** The assembled text opens with the version line pair, and everything
      after the header and the defines is the cleaned file text. */
  lemma FileShaderTextLayout(header: string, pairs: seq<DefinePair>, file: string)
    ensures var t := FileShaderText(header, pairs, file);
            && t[..|VERSION_HEADER|] == VERSION_HEADER
            && t[|FileHeader(header)| + |DefineBlock(pairs)|..] == Cleaned(CString(file))
  {
    var h := FileHeader(header);
    var t := FileShaderText(header, pairs, file);
    assert h[..|VERSION_HEADER|] == VERSION_HEADER;
    assert t[..|h|] == h;
  }

  /** CreateShader(renderPath, vertexPath, fragmentPath, definePairs) on
      the two files' contents: null for RENDER_PATH_NONE; otherwise a new
      shader whose texts are assembled from the files. */
  method CreateShaderFromFiles(path: Category, vertexFile: string, fragmentFile: string,
                               pairs: seq<DefinePair>) returns (shader: Shader?)
    ensures path.RenderPathNone? ==> shader == null
    ensures !path.RenderPathNone? ==>
              && shader != null && fresh(shader)
              && shader.vertex == FileShaderText(HeaderOf(path), pairs, vertexFile)
              && shader.fragment == FileShaderText(HeaderOf(path), pairs, fragmentFile)
  {
    if path.RenderPathNone? {
      return null;
    }
    var header := HeaderOf(path);
    var appendStr := FileHeader(header);
    shader := new Shader();
    shader.vertex := CleanShaderSource(CString(vertexFile));
    shader.fragment := CleanShaderSource(CString(fragmentFile));
    DefineInShader(shader, pairs);
    shader.vertex := appendStr + shader.vertex;
    shader.fragment := appendStr + shader.fragment;
  }

  // ---------------------------------------------------------------------
  // CreateShader(baseShader, vertexFunc, fragmentFunc, definePairs)

  const VERTEX_FUNC_DEFINITION: string :=
    "void Vertex_Func(in vec3 _positionLocal, in vec2 _texcoord, in vec3 _normal, in int _instanceID, in Instance _instance, in Material material, in float _use2D, out vec4 _glPosition){}"
  const VERTEX_FUNC_PASSTHROUGH_CALL: string :=
    "Vertex_Passthrough(InPositionLocal, instance, instance.Use2D, gl_Position);"
  const FRAGMENT_FUNC_DEFINITION: string :=
    "void Fragment_Func(in vec2 _texcoord, in vec4 _textureColor, in vec4 _materialDiffuseColor, out vec4 _fragColor){}"
  const FRAGMENT_FUNC_PASSTHROUGH_CALL: string :=
    "Fragment_Passthrough(textureColor, DiffuseColor, fragColor);"

  /** The placeholder definition replaced by the given function, then the
      passthrough call deleted. */
  function Edited(base: string, definition: string, passthrough: string, func: string): string
  {
    ReplaceFirst(ReplaceFirst(base, definition, func), passthrough, "")
  }

  /** The text after the final version line pair: the edited base,
      cleaned, with the defines in front and the first version line
      deleted. */
  function DerivedBody(base: string, definition: string, passthrough: string, func: string,
                       pairs: seq<DefinePair>): string
  {
    ReplaceFirst(DefineBlock(pairs) + Cleaned(Edited(base, definition, passthrough, func)), VERSION, "")
  }

  /** A shader text CreateShader(baseShader, ...) derives. */
  function DerivedShaderText(base: string, definition: string, passthrough: string, func: string,
                             pairs: seq<DefinePair>): string
  {
    VERSION_HEADER + DerivedBody(base, definition, passthrough, func, pairs)
  }

  /** A find followed, when the text is present, by a replace at the
      position found. */
  method FindAndReplace(s: string, pat: string, rep: string) returns (r: string)
    ensures r == ReplaceFirst(s, pat, rep)
  {
    r := s;
    var pos := Find(s, pat);
    if pos.Some? {
      r := ReplaceAt(s, pos.value, |pat|, rep);
    }
  }

  /** CreateShader(baseShader, vertexFunc, fragmentFunc, definePairs): a new
      shader derived from the base's texts; the base is not changed. */
  method CreateShaderFromBase(base: Shader, vertexFunc: string, fragmentFunc: string,
                              pairs: seq<DefinePair>) returns (shader: Shader)
    ensures fresh(shader)
    ensures shader.vertex == DerivedShaderText(base.vertex, VERTEX_FUNC_DEFINITION,
                                               VERTEX_FUNC_PASSTHROUGH_CALL, vertexFunc, pairs)
    ensures shader.fragment == DerivedShaderText(base.fragment, FRAGMENT_FUNC_DEFINITION,
                                                 FRAGMENT_FUNC_PASSTHROUGH_CALL, fragmentFunc, pairs)
  {
    shader := new Shader();
    shader.vertex := base.vertex;
    shader.fragment := base.fragment;

    shader.vertex := FindAndReplace(shader.vertex, VERTEX_FUNC_DEFINITION, vertexFunc);
    shader.vertex := FindAndReplace(shader.vertex, VERTEX_FUNC_PASSTHROUGH_CALL, "");
    shader.fragment := FindAndReplace(shader.fragment, FRAGMENT_FUNC_DEFINITION, fragmentFunc);
    shader.fragment := FindAndReplace(shader.fragment, FRAGMENT_FUNC_PASSTHROUGH_CALL, "");

    shader.vertex := CleanShaderSource(shader.vertex);
    shader.fragment := CleanShaderSource(shader.fragment);
    DefineInShader(shader, pairs);

    shader.vertex := FindAndReplace(shader.vertex, VERSION, "");
    shader.fragment := FindAndReplace(shader.fragment, VERSION, "");

    shader.vertex := VERSION_HEADER + shader.vertex;
    shader.fragment := VERSION_HEADER + shader.fragment;
  }

  /** std::string::replace(pos, len, text). */
  function ReplaceAt(s: string, pos: nat, len: nat, text: string): (r: string)
    requires pos + len <= |s|
    ensures |r| == |s| - len + |text|
    ensures r[..pos] == s[..pos] && r[pos + |text|..] == s[pos + len..]
  {
    s[..pos] + text + s[pos + len..]
  }

  /** When the defines and the function text hold allowed bytes only, so
      does the whole derived text, which therefore has no NUL: strlen gives
      the compiler the whole text. */
  lemma DerivedShaderTextAllowed(base: string, definition: string, passthrough: string,
                                 func: string, pairs: seq<DefinePair>)
    requires AllAllowed(DefineBlock(pairs))
    ensures AllAllowed(DerivedShaderText(base, definition, passthrough, func, pairs))
    ensures var t := DerivedShaderText(base, definition, passthrough, func, pairs);
            CStringLength(t) == |t|
  {
    var edited := Edited(base, definition, passthrough, func);
    var defined := DefineBlock(pairs) + Cleaned(edited);
    AppendAllowed(DefineBlock(pairs), Cleaned(edited));
    ReplaceFirstAllowed(defined, VERSION, "");
    VersionHeaderAllowed();
    AppendAllowed(VERSION_HEADER, DerivedBody(base, definition, passthrough, func, pairs));
    NoNulInAllowed(DerivedShaderText(base, definition, passthrough, func, pairs));
  }

  lemma VersionHeaderAllowed()
    ensures AllAllowed(VERSION_HEADER)
  {
  }

  /** Two texts of allowed bytes make one. */
  lemma AppendAllowed(a: string, b: string)
    requires AllAllowed(a) && AllAllowed(b)
    ensures AllAllowed(a + b)
  {
    forall k | 0 <= k < |a + b|
      ensures Allowed((a + b)[k])
    {
      if k >= |a| {
        assert (a + b)[k] == b[k - |a|];
      }
    }
  }

  /** A text of allowed bytes has no NUL, so strlen is its length. */
  lemma NoNulInAllowed(t: string)
    requires AllAllowed(t)
    ensures CStringLength(t) == |t|
  {
    assert CStringLength(t) < |t| ==> !Allowed(t[CStringLength(t)]);
  }

  // ---------------------------------------------------------------------
  // CreateRenderPass

  /** The define pairs CreateRenderPass builds: None when the texture list
      and the name list differ in length; otherwise (name i, i) for each
      texture, in order. */
  method BuildDefinePairs(textureCount: nat, names: seq<string>) returns (pairs: Option<seq<DefinePair>>)
    ensures textureCount != |names| <==> pairs.None?
    ensures pairs.Some? ==> |pairs.value| == |names|
    ensures pairs.Some? ==> forall i :: 0 <= i < |names| ==> pairs.value[i] == DefinePair(names[i], i)
  {
    if textureCount != |names| {
      return None;
    }
    var definePairs: seq<DefinePair> := [];
    var i := 0;
    while i < textureCount
      invariant i <= textureCount
      invariant |definePairs| == i
      invariant forall k :: 0 <= k < i ==> definePairs[k] == DefinePair(names[k], k)
    {
      definePairs := definePairs + [DefinePair(names[i], i)];
      i := i + 1;
    }
    return Some(definePairs);
  }
}
