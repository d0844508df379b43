/** The value types shared by the folding wrapper and the energetics:
    the dangling-end setting handed to the folding library and the fold
    result, a closed sum over the number of strands that were folded. */
module Types {
  import opened Wrappers

  /** The dangling-end treatment. The field is private in the program, so
      the only values that exist are the ones `NewDangles` accepts. */
  datatype DanglesSetting = DanglesSetting(setting: string)

  /** The four tokens `NewDangles` accepts. */
  predicate IsDanglesToken(token: string)
  {
    token == "all" || token == "none" || token == "some" || token == "default"
  }

  /** `DanglesSetting::new`: keeps the token when it is one of the four
      known ones, refuses it otherwise. */
  function NewDangles(token: string): (r: Result<DanglesSetting, string>)
    ensures r.Ok? <==> IsDanglesToken(token)
    ensures r.Ok? ==> r.value.setting == token
    ensures r.Err? ==> r.error == "Invalid dangle setting"
  {
    if token == "all" || token == "none" || token == "some" || token == "default" then
      Ok(DanglesSetting(token))
    else
      Err("Invalid dangle setting")
  }

  /** `DanglesSetting::as_int`: the integer code the folding library takes.
      "default" has no code: the library keeps its own default then. */
  function AsInt(d: DanglesSetting): (r: Result<int, string>)
    ensures r.Ok? <==> d.setting in {"all", "some", "none"}
    ensures r.Ok? ==> 0 <= r.value <= 2
    ensures d.setting == "all" ==> r == Ok(2)
    ensures d.setting == "some" ==> r == Ok(1)
    ensures d.setting == "none" ==> r == Ok(0)
    ensures r.Err? ==> r.error == "Must pull default dangle setting"
  {
    match d.setting
    case "all" => Ok(2)
    case "some" => Ok(1)
    case "none" => Ok(0)
    case _ => Err("Must pull default dangle setting")
  }

  /** Every constructible setting has a code except "default", and the
      three codes are told apart: all is 2, some is 1, none is 0. */
  lemma CodeOfEveryToken(token: string)
    requires NewDangles(token).Ok?
    ensures AsInt(NewDangles(token).value).Err? <==> token == "default"
    ensures token == "all" ==> AsInt(NewDangles(token).value) == Ok(2)
    ensures token == "some" ==> AsInt(NewDangles(token).value) == Ok(1)
    ensures token == "none" ==> AsInt(NewDangles(token).value) == Ok(0)
  {
  }

  /** Two settings with the same code come from the same token. */
  lemma CodeIsInjective(t1: string, t2: string)
    requires NewDangles(t1).Ok? && NewDangles(t2).Ok?
    requires AsInt(NewDangles(t1).value).Ok?
    requires AsInt(NewDangles(t1).value) == AsInt(NewDangles(t2).value)
    ensures t1 == t2
  {
  }

  /** The three record shapes a fold result can take. Free energies are
      single-precision floats in the program; here they are reals that are
      only carried, never computed with. */
  datatype UnknownFoldResult = UnknownFoldResult(
    seqs: Option<seq<string>>, dG: real, dots: string, bpX: seq<nat>, bpY: seq<nat>)

  datatype MonoFoldResult = MonoFoldResult(
    seqs: string, dG: real, dots: string, bpX: seq<nat>, bpY: seq<nat>)

  datatype CoFoldResult = CoFoldResult(
    seqs: (string, string), dG: real, dots: string, bpX: seq<nat>, bpY: seq<nat>)

  datatype FoldResult =
    | Unknown(unknown: UnknownFoldResult)
    | Mono(mono: MonoFoldResult)
    | Co(co: CoFoldResult)
  {
    function GetDG(): real
    {
      match this
      case Mono(x) => x.dG
      case Co(x) => x.dG
      case Unknown(x) => x.dG
    }

    function GetDots(): string
    {
      match this
      case Mono(x) => x.dots
      case Co(x) => x.dots
      case Unknown(x) => x.dots
    }

    function GetBpX(): seq<nat>
    {
      match this
      case Mono(x) => x.bpX
      case Co(x) => x.bpX
      case Unknown(x) => x.bpX
    }

    function GetBpY(): seq<nat>
    {
      match this
      case Mono(x) => x.bpY
      case Co(x) => x.bpY
      case Unknown(x) => x.bpY
    }
  }

  /** `FoldResult::create`: the variant follows the number of sequences
      (no sequences known, one, two, or any other count), and the energy,
      the bracket string and both coordinate lists are stored unchanged so
      that every getter hands them back whatever the variant. */
  function Create(sequences: Option<seq<string>>, dG: real, dots: string,
                  bpX: seq<nat>, bpY: seq<nat>): (r: FoldResult)
    ensures r.Mono? <==> sequences.Some? && |sequences.value| == 1
    ensures r.Co? <==> sequences.Some? && |sequences.value| == 2
    ensures r.Mono? ==> r.mono.seqs == sequences.value[0]
    ensures r.Co? ==> r.co.seqs == (sequences.value[0], sequences.value[1])
    ensures r.Unknown? ==> r.unknown.seqs == sequences
    ensures r.GetDG() == dG && r.GetDots() == dots
    ensures r.GetBpX() == bpX && r.GetBpY() == bpY
  {
    if sequences.None? then
      Unknown(UnknownFoldResult(None, dG, dots, bpX, bpY))
    else
      var inside := sequences.value;
      if |inside| == 1 then
        Mono(MonoFoldResult(inside[0], dG, dots, bpX, bpY))
      else if |inside| == 2 then
        Co(CoFoldResult((inside[0], inside[1]), dG, dots, bpX, bpY))
      else
        Unknown(UnknownFoldResult(Some(inside), dG, dots, bpX, bpY))
  }
}
