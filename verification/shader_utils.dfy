/** Choosing the shader stage from a file extension, and reading a shader's
    source, plain or behind the ShaderToy template. Reading a file is
    replaced by its contents (`None` when it cannot be opened); the GLSL
    compiler is not modelled. */
module ShaderUtils {
  import opened Wrappers
  import Paths

  datatype ShaderStage = Vertex | TessControl | TessEvaluation | Geometry | Fragment | Compute

  /** `getShaderLang` as written: the extension (with its leading period)
      must have at least five characters; the character at index 1 names
      the stage, and for 't' the character at index 3 is meant to tell
      control from evaluation. */
  function GetShaderLangAsWritten(ext: string): (r: Result<ShaderStage>)
    ensures |ext| < 5 ==> r == Err("Invalid shader extension: " + ext)
    ensures |ext| >= 5 && r.Err? ==> r.error == "Unsupported shader extension: " + ext
    ensures r == Ok(TessControl) <==> 5 <= |ext| && ext[1] == 't' && ext[3] == 'c'
  {
    if |ext| < 5 then Err("Invalid shader extension: " + ext)
    else
      match ext[1]
      case 'v' => Ok(Vertex)
      case 't' =>
        (match ext[3]
         case 'c' => Ok(TessControl)
         case 'e' => Ok(TessEvaluation)
         case _ => Err("Unsupported shader extension: " + ext))
      case 'g' => Ok(Geometry)
      case 'f' => Ok(Fragment)
      case 'c' => Ok(Compute)
      case _ => Err("Unsupported shader extension: " + ext)
  }

  /** Index 3 of ".tesc" and of ".tese" is 's', so as written both
      tessellation extensions are rejected. */
  lemma AsWrittenRejectsTessellation()
    ensures GetShaderLangAsWritten(".tesc") == Err("Unsupported shader extension: .tesc")
    ensures GetShaderLangAsWritten(".tese") == Err("Unsupported shader extension: .tese")
  {
    assert ".tesc"[1] == 't' && ".tesc"[3] == 's';
    assert ".tese"[1] == 't' && ".tese"[3] == 's';
  }

  /** As written only the characters at indices 1 and 3 are looked at: two
      long enough extensions that agree there map to the same stage. */
  lemma AsWrittenKeyCharacters(a: string, b: string)
    requires 5 <= |a| && 5 <= |b| && a[1] == b[1] && a[3] == b[3]
    ensures GetShaderLangAsWritten(a).Ok? <==> GetShaderLangAsWritten(b).Ok?
    ensures GetShaderLangAsWritten(a).Ok? ==> GetShaderLangAsWritten(a) == GetShaderLangAsWritten(b)
  {
  }

  /** `getShaderLang` with the tessellation letter read from index 4, the
      last letter of ".tesc" and ".tese". Every other case is as written. */
  function GetShaderLang(ext: string): (r: Result<ShaderStage>)
    ensures |ext| < 5 ==> r == Err("Invalid shader extension: " + ext)
    ensures |ext| >= 5 && r.Err? ==> r.error == "Unsupported shader extension: " + ext
    ensures 5 <= |ext| && ext[1] != 't' ==> r == GetShaderLangAsWritten(ext)
  {
    if |ext| < 5 then Err("Invalid shader extension: " + ext)
    else
      match ext[1]
      case 'v' => Ok(Vertex)
      case 't' =>
        (match ext[4]
         case 'c' => Ok(TessControl)
         case 'e' => Ok(TessEvaluation)
         case _ => Err("Unsupported shader extension: " + ext))
      case 'g' => Ok(Geometry)
      case 'f' => Ok(Fragment)
      case 'c' => Ok(Compute)
      case _ => Err("Unsupported shader extension: " + ext)
  }

  /** The conventional extension of each stage. */
  function StageExtension(s: ShaderStage): (ext: string)
    ensures |ext| == 5 && ext[0] == '.'
  {
    match s
    case Vertex => ".vert"
    case TessControl => ".tesc"
    case TessEvaluation => ".tese"
    case Geometry => ".geom"
    case Fragment => ".frag"
    case Compute => ".comp"
  }

  /** Every stage is recognised from its conventional extension. */
  lemma StageExtensionRoundTrip(s: ShaderStage)
    ensures GetShaderLang(StageExtension(s)) == Ok(s)
  {
    var ext := StageExtension(s);
    match s
    case Vertex => assert ext[1] == 'v';
    case TessControl => assert ext[1] == 't' && ext[4] == 'c';
    case TessEvaluation => assert ext[1] == 't' && ext[4] == 'e';
    case Geometry => assert ext[1] == 'g';
    case Fragment => assert ext[1] == 'f';
    case Compute => assert ext[1] == 'c';
  }

  /** Only the characters at indices 1 and 4 are looked at. */
  lemma StageFromKeyCharacters(a: string, b: string)
    requires 5 <= |a| && 5 <= |b| && a[1] == b[1] && a[4] == b[4]
    ensures GetShaderLang(a).Ok? <==> GetShaderLang(b).Ok?
    ensures GetShaderLang(a).Ok? ==> GetShaderLang(a) == GetShaderLang(b)
  {
  }

  /** ".txt" is too short, a long name with an unknown letter is
      unsupported, and ".fxyz" counts as a fragment shader. */
  lemma ExtensionExamples()
    ensures GetShaderLang(".txt") == Err("Invalid shader extension: .txt")
    ensures GetShaderLang(".text") == Err("Unsupported shader extension: .text")
    ensures GetShaderLang(".fxyz") == Ok(Fragment)
  {
  }

  /** `readShaderSource`: the file's bytes, unchanged. */
  function ReadShaderSource(filename: string, contents: Option<string>): (r: Result<string>)
    ensures contents.None? <==> r.Err?
    ensures r.Err? ==> r.error == "Failed to open shader source file: " + filename
    ensures r.Ok? ==> r.value == contents.value
  {
    match contents
    case None => Err("Failed to open shader source file: " + filename)
    case Some(text) => Ok(text)
  }

  /** `readShaderToySource`: the template's characters without the array's
      terminating NUL, then the file's bytes. `templateArray` is the whole
      character array, NUL included. */
  function ReadShaderToySource(templateArray: string, filename: string, contents: Option<string>): (r: Result<string>)
    requires |templateArray| > 0 && templateArray[|templateArray| - 1] == '\0'
    ensures contents.None? <==> r.Err?
    ensures r.Err? ==> r.error == "Failed to open shader source file: " + filename
    ensures r.Ok? ==> |r.value| == |templateArray| - 1 + |contents.value|
  {
    match contents
    case None => Err("Failed to open shader source file: " + filename)
    case Some(text) => Ok(templateArray[..|templateArray| - 1] + text)
  }

  /** The toy source splits back into the template text and the file: the
      user's shader follows the template verbatim. */
  lemma ToySourceSplits(templateArray: string, filename: string, text: string)
    requires |templateArray| > 0 && templateArray[|templateArray| - 1] == '\0'
    ensures var r := ReadShaderToySource(templateArray, filename, Some(text)).value;
            var n := |templateArray| - 1;
            r[..n] == templateArray[..n] && r[n..] == text
            && r == ReadShaderSource(filename, Some(templateArray[..n])).value
                    + ReadShaderSource(filename, Some(text)).value
  {
  }

  /** What `compileFileToSpirv` hands to the compiler: the stage from the
      file name's extension by `getShaderLang` as written, checked before
      the file is read, and the source, behind the template when
      `useToyTemplate` is set. */
  function CompileInput(templateArray: string, filename: string, useToyTemplate: bool, contents: Option<string>)
    : (r: Result<(ShaderStage, string)>)
    requires |templateArray| > 0 && templateArray[|templateArray| - 1] == '\0'
    ensures GetShaderLangAsWritten(Paths.Extension(filename)).Err? ==>
              r == GetShaderLangAsWritten(Paths.Extension(filename)).PropagateFailure()
    ensures r.Ok? <==> GetShaderLangAsWritten(Paths.Extension(filename)).Ok? && contents.Some?
    ensures GetShaderLangAsWritten(Paths.Extension(filename)).Ok? && contents.None? ==>
              r == Err("Failed to open shader source file: " + filename)
    ensures r.Ok? ==> r.value.0 == GetShaderLangAsWritten(Paths.Extension(filename)).value
    ensures r.Ok? && !useToyTemplate ==> r.value.1 == contents.value
    ensures r.Ok? && useToyTemplate ==>
              r.value.1 == templateArray[..|templateArray| - 1] + contents.value
  {
    var stage :- GetShaderLangAsWritten(Paths.Extension(filename));
    var source :- if useToyTemplate then ReadShaderToySource(templateArray, filename, contents)
                  else ReadShaderSource(filename, contents);
    Ok((stage, source))
  }

  predicate Tessellation(s: ShaderStage) {
    s == TessControl || s == TessEvaluation
  }

  /** A shader file named with its stage's conventional extension compiles
      as that stage, except that both tessellation stages are refused as
      unsupported, with the extension in the message. A missing file is
      reported only for the stages that get that far. */
  lemma CompileStageFromExtension(templateArray: string, stem: string, s: ShaderStage,
                                  useToyTemplate: bool, contents: Option<string>)
    requires |templateArray| > 0 && templateArray[|templateArray| - 1] == '\0'
    requires Paths.Filename(stem) != ""
    ensures var r := CompileInput(templateArray, stem + StageExtension(s), useToyTemplate, contents);
            && (Tessellation(s) ==> r == Err("Unsupported shader extension: " + StageExtension(s)))
            && (!Tessellation(s) && contents.None? ==>
                  r == Err("Failed to open shader source file: " + (stem + StageExtension(s))))
            && (!Tessellation(s) && contents.Some? ==> r.Ok? && r.value.0 == s)
  {
    StageExtensionOfFile(stem, s);
    AsWrittenStage(s);
  }

  /** The extension of `stem` followed by a stage's extension is that
      extension. */
  lemma StageExtensionOfFile(stem: string, s: ShaderStage)
    requires Paths.Filename(stem) != ""
    ensures Paths.Extension(stem + StageExtension(s)) == StageExtension(s)
  {
    var ext := StageExtension(s);
    assert Paths.SimpleExtension(ext) by {
      match s
      case Vertex =>
      case TessControl =>
      case TessEvaluation =>
      case Geometry =>
      case Fragment =>
      case Compute =>
    }
    Paths.ExtensionOfAppended(stem, ext);
  }

  /** `getShaderLang` as written on the conventional extensions: right for
      every stage but the two tessellation ones. */
  lemma AsWrittenStage(s: ShaderStage)
    ensures Tessellation(s) ==>
              GetShaderLangAsWritten(StageExtension(s)) == Err("Unsupported shader extension: " + StageExtension(s))
    ensures !Tessellation(s) ==> GetShaderLangAsWritten(StageExtension(s)) == Ok(s)
  {
    if Tessellation(s) {
      AsWrittenRejectsTessellation();
    } else {
      StageExtensionRoundTrip(s);
      assert StageExtension(s)[1] != 't';
    }
  }
}
