/** SRW/SRU diagnostic messages (src/diagsrw.c): the static array
    yaz_srw_codes of (code, message) pairs ended by a {0, 0} sentinel, and
    yaz_diag_srw_str, a linear search over it.

    The array is modelled as the function from an index to the entry stored
    there, given column by column (codes, messages), so that a proof about
    the codes does not have to look at the text of the messages. */
module DiagSrw {
  import opened Wrappers

  /** The number of entries of yaz_srw_codes, the sentinel included. */
  const TABLE_SIZE := 94

  /** The index of the {0, 0} sentinel. */
  const SENTINEL := 93

  /** yaz_srw_codes[i].code, in source order, section by section. */
  function Code(i: nat): int
    requires i < TABLE_SIZE
  {
    // General diagnostics
    if i < 8 then
      (match i
      case 0 => 1
      case 1 => 2
      case 2 => 3
      case 3 => 4
      case 4 => 5
      case 5 => 6
      case 6 => 7
      case _ => 8)
    // Diagnostics relating to CQL, codes 10-19
    else if i < 18 then
      (match i
      case 8 => 10
      case 9 => 11
      case 10 => 12
      case 11 => 13
      case 12 => 14
      case 13 => 15
      case 14 => 16
      case 15 => 17
      case 16 => 18
      case _ => 19)
    // Codes 20-29
    else if i < 28 then
      (match i
      case 18 => 20
      case 19 => 21
      case 20 => 22
      case 21 => 23
      case 22 => 24
      case 23 => 25
      case 24 => 26
      case 25 => 27
      case 26 => 28
      case _ => 29)
    // Codes 30-39
    else if i < 38 then
      (match i
      case 28 => 30
      case 29 => 31
      case 30 => 32
      case 31 => 33
      case 32 => 34
      case 33 => 35
      case 34 => 36
      case 35 => 37
      case 36 => 38
      case _ => 39)
    // Codes 40-49
    else if i < 48 then
      (match i
      case 38 => 40
      case 39 => 41
      case 40 => 42
      case 41 => 43
      case 42 => 44
      case 43 => 45
      case 44 => 46
      case 45 => 47
      case 46 => 48
      case _ => 49)
    // Diagnostics relating to result sets
    else if i < 59 then
      (match i
      case 48 => 50
      case 49 => 51
      case 50 => 52
      case 51 => 53
      case 52 => 54
      case 53 => 55
      case 54 => 56
      case 55 => 57
      case 56 => 58
      case 57 => 59
      case _ => 60)
    // Diagnostics relating to records
    else if i < 73 then
      (match i
      case 59 => 61
      case 60 => 62
      case 61 => 63
      case 62 => 64
      case 63 => 65
      case 64 => 66
      case 65 => 67
      case 66 => 68
      case 67 => 69
      case 68 => 70
      case 69 => 71
      case 70 => 72
      case 71 => 73
      case _ => 74)
    // Diagnostics relating to sorting
    else if i < 86 then
      (match i
      case 73 => 80
      case 74 => 81
      case 75 => 82
      case 76 => 83
      case 77 => 84
      case 78 => 85
      case 79 => 86
      case 80 => 87
      case 81 => 88
      case 82 => 89
      case 83 => 90
      case 84 => 91
      case _ => 92)
    // Diagnostics relating to Explain
    else if i < 89 then
      (match i
      case 86 => 100
      case 87 => 101
      case _ => 102)
    // Diagnostics relating to stylesheets
    else if i < 91 then
      (match i
      case 89 => 110
      case _ => 111)
    // Diagnostics relating to scan
    else if i < 93 then
      (match i
      case 91 => 120
      case _ => 121)
    // the sentinel
    else 0
  }

  /** yaz_srw_codes[i].msg, in source order, section by section. The
      sentinel's message, a null pointer in the source, is never read. */
  function Msg(i: nat): string
    requires i < TABLE_SIZE
  {
    // General diagnostics
    if i < 8 then
      (match i
      case 0 => "Permanent system error"
      case 1 => "System temporarily unavailable"
      case 2 => "Authentication error"
      case 3 => "Unsupported operation"
      case 4 => "Unsupported version"
      case 5 => "Unsupported parameter value"
      case 6 => "Mandatory parameter not supplied"
      case _ => "Unsupported parameter")
    // Diagnostics relating to CQL, codes 10-19
    else if i < 18 then
      (match i
      case 8 => "Query syntax error"
      case 9 => "Unsupported query type"
      case 10 => "Too many characters in query"
      case 11 => "Invalid or unsupported use of parentheses"
      case 12 => "Invalid or unsupported use of quotes"
      case 13 => "Unsupported context set"
      case 14 => "Unsupported index"
      case 15 => "Unsupported combination of index and context set"
      case 16 => "Unsupported combination of indexes"
      case _ => "Unsupported relation")
    // Codes 20-29
    else if i < 28 then
      (match i
      case 18 => "Unsupported relation modifier"
      case 19 => "Unsupported combination of relation modifers"
      case 20 => "Unsupported combination of relation and index"
      case 21 => "Too many characters in term"
      case 22 => "Unsupported combination of relation and term"
      case 23 => "Special characters not quoted in term"
      case 24 => "Non special character escaped in term"
      case 25 => "Empty term unsupported"
      case 26 => "Masking character not supported"
      case _ => "Masked words too short")
    // Codes 30-39
    else if i < 38 then
      (match i
      case 28 => "Too many masking characters in term"
      case 29 => "Anchoring character not supported"
      case 30 => "Anchoring character in unsupported position"
      case 31 => "Combination of proximity/adjacency and masking characters not supported"
      case 32 => "Combination of proximity/adjacency and anchoring characters not supported"
      case 33 => "Terms only exclusion stopwords"
      case 34 => "Term in invalid format for index or relation"
      case 35 => "Unsupported boolean operator"
      case 36 => "Too many boolean operators in query"
      case _ => "Proximity not supported")
    // Codes 40-49
    else if i < 48 then
      (match i
      case 38 => "Unsupported proximity relation"
      case 39 => "Unsupported proximity distance"
      case 40 => "Unsupported proximity unit"
      case 41 => "Unsupported proximity ordering"
      case 42 => "Unsupported combination of proximity modifiers"
      case 43 => "Prefix assigned to multiple identifiers"
      case 44 => "Unsupported boolean modifier"
      case 45 => "Cannot process query; reason unknown"
      case 46 => "Query feature unsupported"
      case _ => "Masking character in unsupported position")
    // Diagnostics relating to result sets
    else if i < 59 then
      (match i
      case 48 => "Result sets not supported"
      case 49 => "Result set does not exist"
      case 50 => "Result set temporarily unavailable"
      case 51 => "Result sets only supported for retrieval"
      case 52 => "Retrieval may only occur from an existing result set"
      case 53 => "Combination of result sets with search terms not supported"
      case 54 => "Only combination of single result set with search terms supported"
      case 55 => "Result set created but no records available"
      case 56 => "Result set created with unpredictable partial results available"
      case 57 => "Result set created with valid partial results available"
      case _ => "Result set no created: too many records retrieved")
    // Diagnostics relating to records
    else if i < 73 then
      (match i
      case 59 => "First record position out of range"
      case 60 => "Negative number of records requested"
      case 61 => "System error in retrieving records"
      case 62 => "Record temporarily unavailable"
      case 63 => "Record does not exist"
      case 64 => "Unknown schema for retrieval"
      case 65 => "Record not available in this schema"
      case 66 => "Not authorised to send record"
      case 67 => "Not authorised to send record in this schema"
      case 68 => "Record too large to send"
      case 69 => "Unsupported record packing"
      case 70 => "XPath retrieval unsupported"
      case 71 => "XPath expression contains unsupported feature"
      case _ => "Unable to evaluate XPath expression")
    // Diagnostics relating to sorting
    else if i < 86 then
      (match i
      case 73 => "Sort not supported"
      case 74 => "Unsupported sort type"
      case 75 => "Unsupported sort sequence"
      case 76 => "Too many records to sort"
      case 77 => "Too many sort keys to sort"
      case 78 => "Duplicate sort keys"
      case 79 => "Cannot sort: incompatible record formats"
      case 80 => "Unsupported schema for sort"
      case 81 => "Unsupported path for sort"
      case 82 => "Path unsupported for schema"
      case 83 => "Unsupported direction value"
      case 84 => "Unsupported case value"
      case _ => "Unsupported missing value action")
    // Diagnostics relating to Explain
    else if i < 89 then
      (match i
      case 86 => "Explain not supported"
      case 87 => "Explain request type not supported (SOAP vs GET)"
      case _ => "Explain record temporarily unavailable")
    // Diagnostics relating to stylesheets
    else if i < 91 then
      (match i
      case 89 => "Stylesheets not supported"
      case _ => "Unsupported stylesheet")
    // Diagnostics relating to scan
    else if i < 93 then
      (match i
      case 91 => "Response position out of range"
      case _ => "Too many terms requested")
    // the sentinel
    else ""
  }

  // ---- the search ----

  /** The loop of yaz_diag_srw_str from index i on: stop with null at the
      first code 0, return the message of the first entry with the code
      sought. */
  function Find(code: int, i: nat): Option<string>
    requires i < TABLE_SIZE
    decreases TABLE_SIZE - i
  {
    SentinelOnly(i);
    if Code(i) == 0 then None
    else if Code(i) == code then Some(Msg(i))
    else Find(code, i + 1)
  }

  /** The result of yaz_diag_srw_str(code); None stands for the null pointer. */
  function Message(code: int): Option<string> {
    Find(code, 0)
  }

  /** yaz_diag_srw_str (diagsrw.c:121-128): a for loop up to the sentinel
      with an early return. */
  method DiagSrwStr(code: int) returns (msg: Option<string>)
    ensures msg == Message(code)
  {
    var i := 0;
    while Code(i) != 0
      invariant 0 <= i < TABLE_SIZE
      invariant Find(code, i) == Message(code)
      decreases TABLE_SIZE - i
    {
      SentinelOnly(i);
      if Code(i) == code {
        return Some(Msg(i));
      }
      i := i + 1;
    }
    return None;
  }

  // ---- the layout of the table ----

  /** The code the table lists at index i: the sections hold the codes 1-8,
      10-74, 80-92, 100-102, 110-111 and 120-121, each run without gaps,
      and the sentinel holds 0. */
  function CodeAt(i: nat): int {
    if i < 8 then i + 1
    else if i < 73 then i + 2
    else if i < 86 then i + 7
    else if i < 89 then i + 14
    else if i < 91 then i + 21
    else if i < SENTINEL then i + 29
    else 0
  }

  /** The codes yaz_srw_codes has an entry for. */
  predicate KnownCode(code: int) {
    || 1 <= code <= 8
    || 10 <= code <= 74
    || 80 <= code <= 92
    || 100 <= code <= 102
    || 110 <= code <= 111
    || 120 <= code <= 121
  }

  /** Where a known code sits in the table. */
  function IndexOf(code: int): (i: nat)
    requires KnownCode(code)
    ensures i < SENTINEL && CodeAt(i) == code
  {
    if code <= 8 then code - 1
    else if code <= 74 then code - 2
    else if code <= 92 then code - 7
    else if code <= 102 then code - 14
    else if code <= 111 then code - 21
    else code - 29
  }

  /** Every code before the sentinel is known, and IndexOf finds it where
      it is. */
  lemma CodeAtKnown(i: nat)
    requires i < SENTINEL
    ensures KnownCode(CodeAt(i)) && IndexOf(CodeAt(i)) == i
  {
  }

  /** The codes before the sentinel grow strictly with the index. */
  lemma CodeAtIncreasing(i: nat, j: nat)
    requires i < j < SENTINEL
    ensures 0 < CodeAt(i) < CodeAt(j)
  {
  }

  /** The code stored at each index is the one the layout gives. */
  lemma CodeLayout(i: nat)
    requires i < TABLE_SIZE
    ensures Code(i) == CodeAt(i)
  {
  }

  /** Code 0 appears only at the sentinel. */
  lemma SentinelOnly(i: nat)
    requires i < TABLE_SIZE
    ensures Code(i) == 0 <==> i == SENTINEL
  {
    CodeLayout(i);
  }

  /** The table invariant the search relies on: the sentinel alone has code
      0, and the codes before it are positive and strictly increasing, so
      no code appears twice. */
  lemma TableIsWellFormed(i: nat, j: nat)
    requires i < j < TABLE_SIZE
    ensures Code(SENTINEL) == 0
    ensures j < SENTINEL ==> 0 < Code(i) < Code(j)
  {
    CodeLayout(i);
    CodeLayout(j);
    if j < SENTINEL {
      CodeAtIncreasing(i, j);
    }
  }

  // ---- what the search returns ----

  /** From index i on, the search finds the entry of a known code if it
      has not been passed yet, and nothing otherwise. */
  lemma {:induction false} FindFrom(code: int, i: nat)
    requires i < TABLE_SIZE
    ensures Find(code, i) ==
      if KnownCode(code) && i <= IndexOf(code) then Some(Msg(IndexOf(code))) else None
    decreases TABLE_SIZE - i
  {
    CodeLayout(i);
    if i < SENTINEL {
      CodeAtKnown(i);
      FindFrom(code, i + 1);
    }
  }

  /** yaz_diag_srw_str returns a message exactly for the codes the table
      lists, and then the message of the entry holding that code. */
  lemma MessageOfKnown(code: int)
    ensures Message(code).Some? <==> KnownCode(code)
    ensures KnownCode(code) ==>
      Code(IndexOf(code)) == code && Message(code) == Some(Msg(IndexOf(code)))
  {
    FindFrom(code, 0);
    if KnownCode(code) {
      CodeLayout(IndexOf(code));
    }
  }

  /** yaz_diag_srw_str(code) is m exactly when some entry before the
      sentinel is {code, m}. */
  lemma MessageIff(code: int, m: string)
    ensures Message(code) == Some(m) <==> exists i :: 0 <= i < SENTINEL && Code(i) == code && Msg(i) == m
  {
    MessageOfKnown(code);
    if exists i :: 0 <= i < SENTINEL && Code(i) == code && Msg(i) == m {
      var i :| 0 <= i < SENTINEL && Code(i) == code && Msg(i) == m;
      CodeLayout(i);
      CodeAtKnown(i);
    }
  }

  /** yaz_diag_srw_str(1) and yaz_diag_srw_str(121), the first and the last
      entries of the table. */
  lemma KnownCodes()
    ensures Message(1) == Some("Permanent system error")
    ensures Message(121) == Some("Too many terms requested")
  {
    MessageOfKnown(1);
    MessageOfKnown(121);
  }

  /** Codes the table lacks give null: 0 (the sentinel ends the scan before
      any entry could match), negative codes, the gaps at 9 and 75-79, and
      everything above 121. */
  lemma UnknownCodes(code: int)
    requires code <= 0 || code == 9 || 75 <= code <= 79 || code >= 122
    ensures Message(code) == None
  {
    MessageOfKnown(code);
  }
}
