/** The plug-in's settings (`GhDataSettings`): the system variables `GhVisualStyle`,
    `GhMeshQuality`, `GhHostTransparency`, `GhTransparency` and `GhColor` read as a preview
    mode, mesh quality, host alpha and preview colour, and the kind of update a change of each
    setting calls for. The colour text is read the way `GhDataSettings.Color` reads it: an
    "RGB:r,g,b" match anywhere in the text, else a colour index, else "#rrggbb", else a colour
    name. The colour-index and colour-name tables are given as functions. Reading as written
    can throw; a throw is a `Failure` naming the exception. */
module DataSettings {
  import opened Wrappers
  import opened HostTypes
  import Text

  /** The system variables the settings read. */
  datatype SystemVariables = SystemVariables(
    ghVisualStyle: int,
    ghMeshQuality: int,
    ghHostTransparency: int,
    ghTransparency: int,
    ghColor: string)

  /** The colour tables of the host: `Color.FromColorIndex(ByAci, i)` (None when it throws) and
      the red, green and blue of `System.Drawing.Color.FromName` (all zero for an unknown name). */
  datatype ColourTables = ColourTables(aci: int -> Option<(int, int, int)>, named: string -> (int, int, int))

  /** The exceptions reading the colour can raise. */
  datatype SettingsError =
    | Overflow            // `Convert.ToInt16` or `int.Parse` out of range
    | InvalidArgument     // `Color.FromArgb` with a component outside 0..255
    | IndexOutOfRange     // `color[0]` on the empty text
    | OutOfRange          // `Substring` past the end of the text
    | FormatError         // `int.Parse` of text that is not hexadecimal
    | ColourIndexError    // the colour-index table refused the index

  const ShortMin := -32768
  const ShortMax := 32767
  const Int32Max := 2147483647

  /** `(GH_PreviewMode) GhVisualStyle == GH_PreviewMode.Shaded`: the value 2 is Shaded. */
  predicate IsRenderMode(v: SystemVariables) {
    v.ghVisualStyle == 2
  }

  /** The mesh settings of `MeshParamsParameters`. */
  datatype MeshingParameters = FastRenderMesh | QualityRenderMesh | DefaultMesh

  /** `MeshParamsParameters`: 0 is fast, 2 is quality, anything else the default. */
  function MeshParams(v: SystemVariables): (r: MeshingParameters)
    ensures r == FastRenderMesh <==> v.ghMeshQuality == 0
    ensures r == QualityRenderMesh <==> v.ghMeshQuality == 2
  {
    if v.ghMeshQuality == 0 then FastRenderMesh
    else if v.ghMeshQuality == 2 then QualityRenderMesh
    else DefaultMesh
  }

  /** `Convert.ToInt16(255 - t * 2.55)`: the percentage turned into an alpha, rounded to the
      nearest integer with halves going to the even neighbour; outside the 16-bit range the
      conversion throws. The product is taken exactly. */
  function AlphaOfPercent(t: int): (r: Result<int, SettingsError>)
  {
    var n := 5100 - 51 * t;                    // 20 * (255 - 2.55 t)
    var q := n / 20;                           // the floor, the divisor being positive
    var rem := n % 20;
    var rounded := if rem < 10 then q else if rem > 10 then q + 1 else if q % 2 == 0 then q else q + 1;
    if rounded < ShortMin || rounded > ShortMax then Failure(Overflow) else Success(rounded)
  }

  /** The rounding is to the nearest integer: the alpha is within one half of `255 - 2.55 t`. */
  lemma AlphaIsNearest(t: int)
    requires AlphaOfPercent(t).Success?
    ensures var a := AlphaOfPercent(t).value;
            -10 <= 20 * a - (5100 - 51 * t) <= 10
  {
  }

  /** A percentage from 0 to 100 gives an alpha from 255 (opaque) down to 0 (invisible), and a
      higher percentage never a higher alpha. */
  lemma AlphaOfPercentRange(t: int, u: int)
    requires 0 <= t <= u <= 100
    ensures AlphaOfPercent(0) == Success(255) && AlphaOfPercent(100) == Success(0)
    ensures AlphaOfPercent(t).Success? && AlphaOfPercent(u).Success?
    ensures 0 <= AlphaOfPercent(u).value <= AlphaOfPercent(t).value <= 255
  {
  }

  /** `HostTransparency` in GhDefinitionManager.cs: the host percentage as an alpha. */
  function HostTransparency(v: SystemVariables): Result<int, SettingsError> {
    AlphaOfPercent(v.ghHostTransparency)
  }

  /** `HostTransparency` in GhDefintionManager.cs: the raw value of the variable. */
  function HostTransparencyOlder(v: SystemVariables): int {
    v.ghHostTransparency
  }

  predicate IsDigit(c: char) {
    '0' <= c <= '9'
  }

  /** The length of the run of decimal digits starting at `i`. */
  function DigitRun(s: string, i: nat): (n: nat)
    requires i <= |s|
    ensures i + n <= |s|
    decreases |s| - i
  {
    if i == |s| || !IsDigit(s[i]) then 0 else 1 + DigitRun(s, i + 1)
  }

  /** The text has "RGB:" at `i`. */
  predicate RgbPrefixAt(s: string, i: nat) {
    i + 4 <= |s| && s[i] == 'R' && s[i + 1] == 'G' && s[i + 2] == 'B' && s[i + 3] == ':'
  }

  /** The end of a non-empty run of decimal digits starting at `j` that a ',' follows. */
  function CommaGroup(s: string, j: nat): (r: Option<nat>)
    requires j <= |s|
    ensures r.Some? ==> j < r.value < |s| && s[r.value] == ','
  {
    var n := DigitRun(s, j);
    if n == 0 || j + n == |s| || s[j + n] != ',' then None else Some(j + n)
  }

  /** The groups of `RGB:(\d+),(\d+),(\d+)` when it matches at `i` (greedy runs of digits).*/
  function MatchRgbAt(s: string, i: nat): Option<(string, string, string)>
    requires i <= |s|
  {
    if !RgbPrefixAt(s, i) then None
    else
      match CommaGroup(s, i + 4)
      case None => None
      case Some(e1) =>
        match CommaGroup(s, e1 + 1)
        case None => None
        case Some(e2) =>
          var n3 := DigitRun(s, e2 + 1);
          if n3 == 0 then None else Some((s[i + 4..e1], s[e1 + 1..e2], s[e2 + 1..e2 + 1 + n3]))
  }

  /** `Regex.Match`: the leftmost match at or after `i`. */
  function FindRgb(s: string, i: nat): Option<(string, string, string)>
    requires i <= |s|
    decreases |s| - i
  {
    match MatchRgbAt(s, i)
    case Some(m) => Some(m)
    case None => if i == |s| then None else FindRgb(s, i + 1)
  }

  /** The value of decimal digits, most significant first. */
  function DecimalValue(ds: string): nat
    decreases |ds|
  {
    if |ds| == 0 then 0
    else
      var c := ds[|ds| - 1];
      DecimalValue(ds[..|ds| - 1]) * 10 + (if IsDigit(c) then c as int - '0' as int else 0)
  }

  /** `int.Parse` of a run of digits: it overflows past `int.MaxValue`. */
  function ParseInt32(ds: string): Result<int, SettingsError> {
    var n := DecimalValue(ds);
    if n > Int32Max then Failure(Overflow) else Success(n)
  }

  predicate AllDigits(s: string) {
    forall k :: 0 <= k < |s| ==> IsDigit(s[k])
  }

  /** `short.TryParse`: an optional sign and at least one digit, within the 16-bit range.
      Surrounding white space is not accepted here. */
  function ParseShort(s: string): (r: Option<int>)
    ensures r.Some? ==> ShortMin <= r.value <= ShortMax
  {
    var signed := |s| > 0 && (s[0] == '-' || s[0] == '+');
    var ds := if signed then s[1..] else s;
    if |ds| == 0 || !AllDigits(ds) then None
    else
      var n: int := if signed && s[0] == '-' then 0 - (DecimalValue(ds) as int) else DecimalValue(ds);
      if n < ShortMin || n > ShortMax then None else Some(n)
  }

  /** The white space `NumberStyles.HexNumber` allows around the digits: U+0009 to U+000D and
      U+0020. */
  predicate IsNumberWhite(c: char) {
    '\U{9}' <= c <= '\U{D}' || c == ' '
  }

  /** A two-character piece read as `int.Parse(piece, HexNumber)`: one or two hexadecimal digits,
      with white space allowed before or after a single digit. */
  function HexPiece(piece: string): (r: Option<nat>)
    requires |piece| == 2
    ensures r.Some? ==> r.value < 256
    ensures IsNumberWhite(piece[0]) && IsNumberWhite(piece[1]) ==> r.None?
    ensures IsNumberWhite(piece[0]) && !IsNumberWhite(piece[1]) ==> r == Text.HexValue(piece[1])
    ensures !IsNumberWhite(piece[0]) && IsNumberWhite(piece[1]) ==> r == Text.HexValue(piece[0])
    ensures !IsNumberWhite(piece[0]) && !IsNumberWhite(piece[1]) ==>
              (r.Some? <==> Text.HexValue(piece[0]).Some? && Text.HexValue(piece[1]).Some?) &&
              (r.Some? ==> r.value == Text.HexValue(piece[0]).value * 16 + Text.HexValue(piece[1]).value)
  {
    assert piece[..|piece| - 1] == piece[..1] && piece[..1][..0] == [];
    assert Text.HexDigitsValue(piece[..1]) == Text.HexValue(piece[0]);
    if IsNumberWhite(piece[0]) && IsNumberWhite(piece[1]) then None
    else if IsNumberWhite(piece[0]) then Text.HexValue(piece[1])
    else if IsNumberWhite(piece[1]) then Text.HexValue(piece[0])
    else Text.HexDigitsValue(piece)
  }

  /** `int.Parse(color.Substring(i, 2), HexNumber)`. */
  function HexByte(s: string, i: nat): (r: Result<int, SettingsError>)
    ensures r == Failure(OutOfRange) <==> i + 2 > |s|
    ensures r.Success? ==> 0 <= r.value < 256
    ensures i + 2 <= |s| ==> (r.Success? <==> HexPiece(s[i..i + 2]).Some?)
  {
    if i + 2 > |s| then Failure(OutOfRange)
    else
      match HexPiece(s[i..i + 2])
      case None => Failure(FormatError)
      case Some(v) => Success(v)
  }

  /** `Color.FromArgb(a, r, g, b)`: every component must lie in 0..255. */
  function FromArgb(a: int, r: int, g: int, b: int): (c: Result<Argb, SettingsError>)
    ensures c.Success? <==> 0 <= a <= 255 && 0 <= r <= 255 && 0 <= g <= 255 && 0 <= b <= 255
    ensures c.Success? ==> c.value == Argb(a, r, g, b)
  {
    if 0 <= a <= 255 && 0 <= r <= 255 && 0 <= g <= 255 && 0 <= b <= 255 then Success(Argb(a, r, g, b))
    else Failure(InvalidArgument)
  }

  /** The colour for an alpha and the `GhColor` text, tried in the order of
      `GhDataSettings.Color`. */
  function ColourOfText(a: int, text: string, tables: ColourTables): Result<Argb, SettingsError> {
    match FindRgb(text, 0)
    case Some(m) =>
      (match (ParseInt32(m.0), ParseInt32(m.1), ParseInt32(m.2))
       case (Success(r), Success(g), Success(b)) => FromArgb(a, r, g, b)
       case _ => Failure(Overflow))
    case None =>
      match ParseShort(text)
      case Some(index) =>
        (match tables.aci(index)
         case None => Failure(ColourIndexError)
         case Some(rgb) => FromArgb(a, rgb.0, rgb.1, rgb.2))
      case None =>
        if |text| == 0 then Failure(IndexOutOfRange)
        else if text[0] == '#' then
          (match (HexByte(text, 1), HexByte(text, 3), HexByte(text, 5))
           case (Success(r), Success(g), Success(b)) => FromArgb(a, r, g, b)
           case (Failure(e), _, _) => Failure(e)
           case (_, Failure(e), _) => Failure(e)
           case (_, _, Failure(e)) => Failure(e))
        else
          var rgb := tables.named(text);
          FromArgb(a, rgb.0, rgb.1, rgb.2)
  }

  /** `Color` in GhDefinitionManager.cs: the alpha comes from the transparency percentage. */
  function Colour(v: SystemVariables, tables: ColourTables): Result<Argb, SettingsError> {
    match AlphaOfPercent(v.ghTransparency)
    case Failure(e) => Failure(e)
    case Success(a) => ColourOfText(a, v.ghColor, tables)
  }

  /** `Color` in GhDefintionManager.cs: the alpha is the raw value of the variable. */
  function ColourOlder(v: SystemVariables, tables: ColourTables): Result<Argb, SettingsError> {
    ColourOfText(v.ghTransparency, v.ghColor, tables)
  }

  /** The two digits a byte is written with in "#rrggbb". */
  function HexByteText(n: nat): string
    requires n < 256
  {
    [Text.HexDigit(n / 16), Text.HexDigit(n % 16)]
  }

  /** The "RGB:r,g,b" text of a colour. */
  function RgbText(r: nat, g: nat, b: nat): string {
    "RGB:" + Text.NatToString(r) + "," + Text.NatToString(g) + "," + Text.NatToString(b)
  }

  /** The digits written for a number read back as that number. */
  lemma {:induction false} DecimalOfNatToString(n: nat)
    ensures DecimalValue(Text.NatToString(n)) == n
    decreases n
  {
    var s := Text.NatToString(n);
    if n < 10 {
      assert s[..0] == "";
    } else {
      DecimalOfNatToString(n / 10);
      assert s[..|s| - 1] == Text.NatToString(n / 10);
    }
  }

  /** A run of digits followed by a non-digit or the end is counted whole. */
  lemma {:induction false} DigitRunOf(s: string, i: nat, p: string)
    requires i + |p| <= |s| && s[i..i + |p|] == p && AllDigits(p)
    requires i + |p| == |s| || !IsDigit(s[i + |p|])
    ensures DigitRun(s, i) == |p|
    decreases |p|
  {
    if |p| > 0 {
      assert s[i] == p[0];
      assert s[i + 1..i + 1 + |p[1..]|] == p[1..];
      DigitRunOf(s, i + 1, p[1..]);
    }
  }

  /** A text without the letter R holds no "RGB:" match. */
  lemma {:induction false} NoRgbWithoutR(s: string, i: nat)
    requires i <= |s| && forall k :: 0 <= k < |s| ==> s[k] != 'R'
    ensures FindRgb(s, i) == None
    decreases |s| - i
  {
    if i + 4 <= |s| {
      assert s[i..i + 4][0] == s[i];
    }
    if i < |s| {
      NoRgbWithoutR(s, i + 1);
    }
  }

  /** A run of digits followed by ',' is a group ending there. */
  lemma CommaGroupOf(s: string, i: nat, p: string, rest: string)
    requires i <= |s| && s[i..] == p + "," + rest && |p| > 0 && AllDigits(p)
    ensures CommaGroup(s, i) == Some(i + |p|)
    ensures s[i..i + |p|] == p && s[i + |p| + 1..] == rest
  {
    assert s[i + |p|] == (p + "," + rest)[|p|];
    assert s[i..i + |p|] == (p + "," + rest)[..|p|];
    assert s[i + |p| + 1..] == (p + "," + rest)[|p| + 1..];
    DigitRunOf(s, i, p);
  }

  /** The pattern matches "RGB:" and three comma-separated runs of digits at the start of the
      text, with the runs as groups. */
  lemma MatchRgbParts(s: string, p1: string, p2: string, p3: string)
    requires s == "RGB:" + p1 + "," + p2 + "," + p3
    requires |p1| > 0 && |p2| > 0 && |p3| > 0 && AllDigits(p1) && AllDigits(p2) && AllDigits(p3)
    ensures MatchRgbAt(s, 0) == Some((p1, p2, p3))
  {
    assert s[..4] == "RGB:";
    assert s[4..] == p1 + "," + (p2 + "," + p3);
    CommaGroupOf(s, 4, p1, p2 + "," + p3);
    var k := 4 + |p1| + 1;
    CommaGroupOf(s, k, p2, p3);
    var l := k + |p2| + 1;
    assert s[l..l + |p3|] == s[l..];
    DigitRunOf(s, l, p3);
  }

  /** The pattern matches an "RGB:r,g,b" text at its start, with the three numbers as groups. */
  lemma MatchRgbText(r: nat, g: nat, b: nat)
    ensures MatchRgbAt(RgbText(r, g, b), 0) == Some((Text.NatToString(r), Text.NatToString(g), Text.NatToString(b)))
  {
    MatchRgbParts(RgbText(r, g, b), Text.NatToString(r), Text.NatToString(g), Text.NatToString(b));
  }

  /** An "RGB:r,g,b" text with components in 0..255 gives that colour. */
  lemma RgbTextColour(a: int, r: nat, g: nat, b: nat, tables: ColourTables)
    requires 0 <= a <= 255 && r <= 255 && g <= 255 && b <= 255
    ensures ColourOfText(a, RgbText(r, g, b), tables) == Success(Argb(a, r, g, b))
  {
    MatchRgbText(r, g, b);
    DecimalOfNatToString(r);
    DecimalOfNatToString(g);
    DecimalOfNatToString(b);
  }

  /** The two hexadecimal digits of a byte read back as the byte. */
  lemma HexByteTextValue(n: nat)
    requires n < 256
    ensures Text.HexDigitsValue(HexByteText(n)) == Some(n)
  {
    var t := HexByteText(n);
    Text.HexDigitValue(n / 16);
    Text.HexDigitValue(n % 16);
    assert t[..1] == [Text.HexDigit(n / 16)];
    assert t[..1][..0] == [];
    assert Text.HexDigitsValue(t[..1]) == Some(n / 16);
  }

  /** A "#rrggbb" text gives that colour. */
  lemma HashTextColour(a: int, r: nat, g: nat, b: nat, tables: ColourTables)
    requires 0 <= a <= 255 && r <= 255 && g <= 255 && b <= 255
    ensures ColourOfText(a, "#" + HexByteText(r) + HexByteText(g) + HexByteText(b), tables) == Success(Argb(a, r, g, b))
  {
    var s := "#" + HexByteText(r) + HexByteText(g) + HexByteText(b);
    forall k | 0 <= k < |s| ensures s[k] != 'R' {
      assert k == 0 || s[k] in "0123456789ABCDEF";
    }
    NoRgbWithoutR(s, 0);
    assert !IsDigit(s[0]);
    assert s[1..3] == HexByteText(r) && s[3..5] == HexByteText(g) && s[5..7] == HexByteText(b);
    HexByteTextValue(r);
    HexByteTextValue(g);
    HexByteTextValue(b);
  }

  /** A colour index written in digits is looked up in the colour-index table. */
  lemma IndexTextColour(a: int, n: nat, tables: ColourTables)
    requires n <= ShortMax
    ensures ColourOfText(a, Text.NatToString(n), tables) ==
            match tables.aci(n)
            case None => Failure(ColourIndexError)
            case Some(rgb) => FromArgb(a, rgb.0, rgb.1, rgb.2)
  {
    var s := Text.NatToString(n);
    NoRgbWithoutR(s, 0);
    DecimalOfNatToString(n);
  }

  /** The update a change of a setting calls for (`SettingsChanged`). */
  datatype UpdateKind = SoftUpdate | HardUpdate | NoUpdate

  function UpdateFor(setting: string): (k: UpdateKind)
    ensures k == SoftUpdate <==> setting in {"GhHostTransparency", "GhTransparency", "GhColor"}
    ensures k == HardUpdate <==> setting in {"GhVisualStyle", "GhMeshQuality"}
  {
    if setting == "GhHostTransparency" || setting == "GhTransparency" || setting == "GhColor" then SoftUpdate
    else if setting == "GhVisualStyle" || setting == "GhMeshQuality" then HardUpdate
    else NoUpdate
  }
}
