/**
 * `process_reg_file` without its file read: from the text of a capture to a
 * map from each section header to the bank its table parses to.
 */
module RegFile {
  import opened Results
  import opened Text
  import opened RegMaps
  import opened Table

  /** The keys of `reg_maps`, in the order the map was built and is iterated. */
  const Headers: seq<string> := ["hdmi", "rep", "edid", "if", "cec", "cp", "dpll"]

  /** Why `process_reg_file` throws. */
  datatype FileError =
    | MissingHeader(header: string)                // `findAnyOf(listOf(header))?.first!!` found nothing
    | BadTable(header: string, cause: TableError)  // `process_table` threw on this header's section

  /** `reg_maps` before the loop: every header present, every bank `null`. */
  function Initial(): (m: map<string, Option<RegMap>>)
    ensures forall h :: h in m <==> h in Headers
    ensures forall h :: h in m ==> m[h] == None
  {
    map h | h in Headers :: None
  }

  /** `reg_maps.keys.filter { s -> s != header }`, in key order. */
  function Others(header: string): (r: seq<string>)
    ensures forall k :: 0 <= k < |r| ==> r[k] in Headers && r[k] != header
    ensures forall h :: h in Headers && h != header ==> h in r
  {
    OthersOf(Headers, header)
  }

  function OthersOf(hs: seq<string>, header: string): (r: seq<string>)
    ensures forall k :: 0 <= k < |r| ==> r[k] in hs && r[k] != header
    ensures forall h :: h in hs && h != header ==> h in r
  {
    if |hs| == 0 then []
    else if hs[0] == header then OthersOf(hs[1..], header)
    else [hs[0]] + OthersOf(hs[1..], header)
  }

  /**
   * The section of `text` for `header`: from the first occurrence of the
   * header up to the first occurrence after it of any other header, or to
   * the end of the text. `None` when the header does not occur.
   */
  function Section(text: string, header: string): Option<string>
  {
    match FindAny(text, [header])
    case None => None
    case Some(start) =>
      var substr := text[start..];
      var endex := match FindAny(substr, Others(header))
        case None => |substr|
        case Some(e) => e;
      Some(substr[0..endex])
  }

  /** One header's bank, or why it could not be built. */
  function Bank(text: string, header: string): Result<RegMap, FileError>
  {
    match Section(text, header)
    case None => Err(MissingHeader(header))
    case Some(section) =>
      match ParseTable(section)
      case Err(e) => Err(BadTable(header, e))
      case Ok(bytes) => Ok(RegMap(bytes))
  }

  /** The loop over the remaining headers `hs`, from the map `acc` built so far. */
  function LoadFrom(text: string, hs: seq<string>, acc: map<string, Option<RegMap>>): Result<map<string, Option<RegMap>>, FileError>
    decreases |hs|
  {
    if |hs| == 0 then Ok(acc)
    else
      match Bank(text, hs[0])
      case Err(e) => Err(e)
      case Ok(bank) => LoadFrom(text, hs[1..], acc[hs[0] := Some(bank)])
  }

  /** What `process_reg_file` returns for the text of a capture, or the exception it throws. */
  function Load(text: string): Result<map<string, Option<RegMap>>, FileError>
  {
    LoadFrom(text, Headers, Initial())
  }

  /** Searching the section start again for the header finds it at offset 0. */
  lemma HeaderAtStart(text: string, header: string, start: nat)
    requires FindAny(text, [header]) == Some(start)
    ensures FindAny(text[start..], [header]) == Some(0)
  {
    var substr := text[start..];
    assert OccursAt(text, header, start);
    assert substr[0..|header|] == text[start..start + |header|];
    assert OccursAt(substr, [header][0], 0);
  }

  /**
   * The section starts at the first occurrence of the header, contains no
   * other header's start, and ends at the next other header or at the end
   * of the text.
   */
  lemma SectionBounds(text: string, header: string)
    requires Section(text, header).Some?
    ensures var start := FindAny(text, [header]).value;
      var section := Section(text, header).value;
      start + |section| <= |text| && section == text[start..start + |section|]
      && (forall j :: 0 <= j < |section| ==> !AnyOccursAt(text[start..], Others(header), j))
      && (start + |section| == |text| || AnyOccursAt(text[start..], Others(header), |section|))
  {
  }

  /** A header that does not occur in the text is reported missing, and only then. */
  lemma MissingHeaderIff(text: string, header: string)
    ensures Bank(text, header) == Err(MissingHeader(header)) <==>
      forall j :: 0 <= j <= |text| ==> !OccursAt(text, header, j)
  {
    if FindAny(text, [header]).Some? {
      var j := FindAny(text, [header]).value;
      var k :| 0 <= k < 1 && OccursAt(text, [header][k], j);
    } else {
      forall j | 0 <= j <= |text|
        ensures !OccursAt(text, header, j)
      {
        assert !AnyOccursAt(text, [header], j);
        assert [header][0] == header;
      }
    }
  }

  /**
   * A completed loop holds, for each header processed, that header's bank,
   * and leaves every other entry as it was.
   */
  lemma {:induction false} LoadFromOk(text: string, hs: seq<string>, acc: map<string, Option<RegMap>>)
    requires LoadFrom(text, hs, acc).Ok?
    ensures var m := LoadFrom(text, hs, acc).value;
      (forall h :: h in m <==> h in acc || h in hs)
      && (forall h :: h in hs ==> Bank(text, h).Ok? && m[h] == Some(Bank(text, h).value))
      && (forall h :: h in acc && h !in hs ==> m[h] == acc[h])
    decreases |hs|
  {
    if |hs| > 0 {
      var bank := Bank(text, hs[0]).value;
      LoadFromOk(text, hs[1..], acc[hs[0] := Some(bank)]);
      assert forall h :: h in hs <==> h == hs[0] || h in hs[1..];
    }
  }

  /** One turn of the loop: the first header's bank, stored, or its error. */
  lemma LoadFromStep(text: string, hs: seq<string>, acc: map<string, Option<RegMap>>)
    requires |hs| > 0
    ensures Bank(text, hs[0]).Err? ==> LoadFrom(text, hs, acc) == Err(Bank(text, hs[0]).error)
    ensures Bank(text, hs[0]).Ok? ==>
      LoadFrom(text, hs, acc) == LoadFrom(text, hs[1..], acc[hs[0] := Some(Bank(text, hs[0]).value)])
  {
  }

  /** The turn of `process_reg_file`'s loop for the `i`-th key. */
  lemma LoadFromHeader(text: string, i: nat, acc: map<string, Option<RegMap>>)
    requires i < |Headers|
    ensures Bank(text, Headers[i]).Err? ==> LoadFrom(text, Headers[i..], acc) == Err(Bank(text, Headers[i]).error)
    ensures Bank(text, Headers[i]).Ok? ==>
      LoadFrom(text, Headers[i..], acc) == LoadFrom(text, Headers[i + 1..], acc[Headers[i] := Some(Bank(text, Headers[i]).value)])
  {
    assert Headers[i..][0] == Headers[i] && Headers[i..][1..] == Headers[i + 1..];
    LoadFromStep(text, Headers[i..], acc);
  }

  /** The loop completes exactly when every header's bank can be built. */
  lemma {:induction false} LoadFromOkIff(text: string, hs: seq<string>, acc: map<string, Option<RegMap>>)
    ensures LoadFrom(text, hs, acc).Ok? <==> forall k :: 0 <= k < |hs| ==> Bank(text, hs[k]).Ok?
    decreases |hs|
  {
    if |hs| > 0 {
      LoadFromStep(text, hs, acc);
      if Bank(text, hs[0]).Ok? {
        var tail := hs[1..];
        LoadFromOkIff(text, tail, acc[hs[0] := Some(Bank(text, hs[0]).value)]);
        assert forall k :: 1 <= k < |hs| ==> hs[k] == tail[k - 1];
        if forall k :: 0 <= k < |tail| ==> Bank(text, tail[k]).Ok? {
          forall k | 0 <= k < |hs|
            ensures Bank(text, hs[k]).Ok?
          {
            if k > 0 {
              assert hs[k] == tail[k - 1];
            }
          }
        }
      }
    }
  }

  /** The loop stops at the first header whose bank cannot be built, with that header's error. */
  lemma {:induction false} LoadFromFirstError(text: string, hs: seq<string>, acc: map<string, Option<RegMap>>, k: nat)
    requires k < |hs| && Bank(text, hs[k]).Err?
    requires forall j :: 0 <= j < k ==> Bank(text, hs[j]).Ok?
    ensures LoadFrom(text, hs, acc) == Err(Bank(text, hs[k]).error)
    decreases k
  {
    LoadFromStep(text, hs, acc);
    if k > 0 {
      LoadFromFirstError(text, hs[1..], acc[hs[0] := Some(Bank(text, hs[0]).value)], k - 1);
    }
  }

  /** `process_reg_file` returns, rather than throws, exactly when every section parses. */
  lemma LoadOkIff(text: string)
    ensures Load(text).Ok? <==> forall k :: 0 <= k < |Headers| ==> Bank(text, Headers[k]).Ok?
  {
    LoadFromOkIff(text, Headers, Initial());
  }

  /**
   * The map `process_reg_file` returns has exactly the seven headers as
   * keys, each holding the bank its section parses to.
   */
  lemma LoadKeys(text: string)
    requires Load(text).Ok?
    ensures forall h :: h in Load(text).value <==> h in Headers
    ensures forall h :: h in Headers ==> Bank(text, h).Ok? && Load(text).value[h] == Some(Bank(text, h).value)
  {
    LoadFromOk(text, Headers, Initial());
  }

  /**
   * The loop stops at the first header, in key order, whose section is
   * missing or does not parse, and throws that header's error.
   */
  lemma LoadFirstError(text: string, k: nat)
    requires k < |Headers| && Bank(text, Headers[k]).Err?
    requires forall j :: 0 <= j < k ==> Bank(text, Headers[j]).Ok?
    ensures Load(text) == Err(Bank(text, Headers[k]).error)
  {
    LoadFromFirstError(text, Headers, Initial(), k);
  }

  /** A capture without one of the headers fails, at the first missing or unparsable section. */
  lemma MissingHeaderFails(text: string, k: nat)
    requires k < |Headers|
    requires forall j :: 0 <= j <= |text| ==> !OccursAt(text, Headers[k], j)
    ensures Load(text).Err?
  {
    MissingHeaderIff(text, Headers[k]);
    LoadOkIff(text);
  }

  /**
   * Lines 146-150 of `process_reg_file`: the section for `header`, found as
   * the code finds it, including the second search for the header inside
   * the cut text.
   */
  method FindSection(text: string, header: string) returns (r: Option<string>)
    ensures r == Section(text, header)
  {
    var start := FindAny(text, [header]);
    if start.None? {
      return None;
    }
    var substr := text[start.value..];
    var found := FindAny(substr, Others(header));
    var endex := if found.Some? then found.value else |substr|;
    HeaderAtStart(text, header, start.value);
    var from := FindAny(substr, [header]);
    return Some(substr[from.value..endex]);
  }

  /** One turn of `process_reg_file`'s loop: the section for `header`, parsed into a bank. */
  method LoadBank(text: string, header: string) returns (r: Result<RegMap, FileError>)
    ensures r == Bank(text, header)
  {
    var section := FindSection(text, header);
    if section.None? {
      return Err(MissingHeader(header));
    }
    var result := ProcessTable(section.value);
    if result.Err? {
      return Err(BadTable(header, result.error));
    }
    return Ok(RegMap(result.value));
  }

  /**
   * `process_reg_file`'s loop over the keys of `reg_maps`: each header's
   * bank is stored under it; the first failure ends the loop by throwing.
   */
  method ProcessRegFile(text: string) returns (r: Result<map<string, Option<RegMap>>, FileError>)
    ensures r == Load(text)
  {
    var regMaps := Initial();
    for i := 0 to |Headers|
      invariant LoadFrom(text, Headers[i..], regMaps) == Load(text)
    {
      var header := Headers[i];
      LoadFromHeader(text, i, regMaps);
      var bank := LoadBank(text, header);
      if bank.Err? {
        return Err(bank.error);
      }
      regMaps := regMaps[header := Some(bank.value)];
    }
    assert Headers[|Headers|..] == [];
    return Ok(regMaps);
  }
}
