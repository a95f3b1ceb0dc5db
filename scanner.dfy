/** The command-string scanner both devices run before dispatching: the
    regular expression `(\w+)(\?)? ?([\w-, ]*)` applied with `exec` (unanchored),
    written out as a left-to-right scan, and the parameter list it yields. */
module Scanner {
  import opened Base
  import opened Text

  /** The parameter class `[\w-, ]`: word characters, '-', ',' and space. */
  predicate IsParamChar(c: char)
  {
    IsWordChar(c) || c == '-' || c == ',' || c == ' '
  }

  /** Length of the maximal run of word characters from index `i`. */
  function WordSpan(s: string, i: nat): (n: nat)
    requires i <= |s|
    ensures i + n <= |s|
    ensures forall k :: i <= k < i + n ==> IsWordChar(s[k])
    ensures i + n == |s| || !IsWordChar(s[i + n])
    decreases |s| - i
  {
    if i < |s| && IsWordChar(s[i]) then 1 + WordSpan(s, i + 1) else 0
  }

  /** Length of the maximal run of parameter characters from index `i`. */
  function ParamSpan(s: string, i: nat): (n: nat)
    requires i <= |s|
    ensures i + n <= |s|
    ensures forall k :: i <= k < i + n ==> IsParamChar(s[k])
    ensures i + n == |s| || !IsParamChar(s[i + n])
    decreases |s| - i
  {
    if i < |s| && IsParamChar(s[i]) then 1 + ParamSpan(s, i + 1) else 0
  }

  /** Index of the first word character at or after `i`: where the
      unanchored match starts when `i` is 0. */
  function FirstWord(s: string, i: nat := 0): (r: Option<nat>)
    requires i <= |s|
    ensures r.Some? ==> i <= r.value < |s| && IsWordChar(s[r.value])
    ensures r.Some? ==> forall j :: i <= j < r.value ==> !IsWordChar(s[j])
    ensures r.None? ==> forall j :: i <= j < |s| ==> !IsWordChar(s[j])
    decreases |s| - i
  {
    if i == |s| then None
    else if IsWordChar(s[i]) then Some(i)
    else FirstWord(s, i + 1)
  }

  /** The three capture groups: the name, whether `?` followed it, and the
      raw parameter text. */
  datatype Match = Match(name: string, query: bool, rest: string)

  /** Where the groups of a match lie: the name is `[start, nameEnd)`, and
      the parameter text `[restStart, restEnd)`. */
  datatype Spans = Spans(start: nat, nameEnd: nat, query: bool, restStart: nat, restEnd: nat)

  /** The leftmost match starts at the first word character; every quantifier
      is greedy and the pattern cannot fail after its first character, so no
      backtracking ever happens. */
  function Scan(cmd: string): Option<Spans>
  {
    var first := FirstWord(cmd);
    if first.None? then None else Some(ScanAt(cmd, first.value))
  }

  /** The spans of the match that starts at index `i`. */
  function ScanAt(cmd: string, i: nat): Spans
    requires i <= |cmd|
  {
    var j := i + WordSpan(cmd, i);
    var q := j < |cmd| && cmd[j] == '?';
    var p0 := if q then j + 1 else j;
    var p := if p0 < |cmd| && cmd[p0] == ' ' then p0 + 1 else p0;
    Spans(i, j, q, p, p + ParamSpan(cmd, p))
  }

  /** The capture groups cut out of the command. */
  function Groups(cmd: string, sp: Spans): Match
    requires sp.start <= sp.nameEnd <= |cmd| && sp.restStart <= sp.restEnd <= |cmd|
  {
    Match(cmd[sp.start..sp.nameEnd], sp.query, cmd[sp.restStart..sp.restEnd])
  }

  /** `/(\w+)(\?)? ?([\w-, ]*)/.exec(cmd)`: `None` where exec gives null. */
  function MatchCommand(cmd: string): (m: Option<Match>)
    ensures m.None? <==> forall k :: 0 <= k < |cmd| ==> !IsWordChar(cmd[k])
    ensures m.Some? ==> |m.value.name| > 0 && forall k :: 0 <= k < |m.value.name| ==> IsWordChar(m.value.name[k])
    ensures m.Some? ==> forall k :: 0 <= k < |m.value.rest| ==> IsParamChar(m.value.rest[k])
  {
    match Scan(cmd)
    case None => None
    case Some(sp) => Some(Groups(cmd, sp))
  }

  /** `rest.split(',').map(par => par.trim())`. */
  function Parameters(rest: string): (ps: seq<string>)
    ensures |ps| == |Split(rest, ',')| >= 1
    ensures forall k :: 0 <= k < |ps| ==> ps[k] == Trim(Split(rest, ',')[k])
  {
    var parts := Split(rest, ',');
    seq(|parts|, k requires 0 <= k < |parts| => Trim(parts[k]))
  }

  /** What the regular expression means, as conditions on where its groups lie
      in the command: nothing before `sp.start` could begin a match (leftmost),
      `\w+` is a maximal run, `(\?)?` takes a '?' exactly when one follows,
      ` ?` takes a space exactly when one follows, and `[\w-, ]*` is maximal. */
  ghost predicate RegexMatch(cmd: string, sp: Spans)
  {
    var p0 := if sp.query then sp.nameEnd + 1 else sp.nameEnd;
    && sp.start < sp.nameEnd <= p0 <= sp.restStart <= sp.restEnd <= |cmd|
    && (forall k :: 0 <= k < sp.start ==> !IsWordChar(cmd[k]))
    && (forall k :: sp.start <= k < sp.nameEnd ==> IsWordChar(cmd[k]))
    && (sp.nameEnd == |cmd| || !IsWordChar(cmd[sp.nameEnd]))
    && sp.query == (sp.nameEnd < |cmd| && cmd[sp.nameEnd] == '?')
    && sp.restStart == (if p0 < |cmd| && cmd[p0] == ' ' then p0 + 1 else p0)
    && (forall k :: sp.restStart <= k < sp.restEnd ==> IsParamChar(cmd[k]))
    && (sp.restEnd == |cmd| || !IsParamChar(cmd[sp.restEnd]))
  }

  /** A command with no word character does not match at all, and one with a
      word character always does. */
  lemma MatchNone(cmd: string)
    ensures MatchCommand(cmd).None? <==> forall k :: 0 <= k < |cmd| ==> !IsWordChar(cmd[k])
  {
  }

  /** Soundness: the scan finds a match of the regular expression, and the
      groups are cut out at its spans. */
  lemma ScanSound(cmd: string)
    requires Scan(cmd).Some?
    ensures RegexMatch(cmd, Scan(cmd).value)
  {
  }

  /** Completeness: the regular expression has only one match, so whatever
      satisfies its conditions is what the scan finds. */
  lemma ScanComplete(cmd: string, sp: Spans)
    requires RegexMatch(cmd, sp)
    ensures Scan(cmd) == Some(sp)
  {
    FirstWordExact(cmd, sp.start);
    ScanAtExact(cmd, sp);
  }

  /** Started at the right place, the scan finds the spans. */
  lemma ScanAtExact(cmd: string, sp: Spans)
    requires RegexMatch(cmd, sp)
    ensures ScanAt(cmd, sp.start) == sp
  {
    WordSpanExact(cmd, sp.start, sp.nameEnd);
    ParamSpanExact(cmd, sp.restStart, sp.restEnd);
    ScanAtSteps(cmd, sp);
  }

  lemma ScanAtSteps(cmd: string, sp: Spans)
    requires sp.start <= sp.nameEnd <= |cmd| && sp.restStart <= |cmd|
    requires sp.start + WordSpan(cmd, sp.start) == sp.nameEnd
    requires sp.query == (sp.nameEnd < |cmd| && cmd[sp.nameEnd] == '?')
    requires var p0 := if sp.query then sp.nameEnd + 1 else sp.nameEnd;
      sp.restStart == (if p0 < |cmd| && cmd[p0] == ' ' then p0 + 1 else p0)
    requires sp.restStart + ParamSpan(cmd, sp.restStart) == sp.restEnd
    ensures ScanAt(cmd, sp.start) == sp
  {
    var r := ScanAt(cmd, sp.start);
    assert r.nameEnd == sp.nameEnd;
    assert r.query == sp.query;
    assert r.restStart == sp.restStart;
  }

  /** Hence, for the groups: `MatchCommand` returns `m` exactly when `m` is cut
      out of the command at spans satisfying the regular expression. */
  lemma MatchCommandSpec(cmd: string, m: Match)
    ensures MatchCommand(cmd) == Some(m) <==>
      exists sp :: RegexMatch(cmd, sp) && m == Groups(cmd, sp)
  {
    if MatchCommand(cmd) == Some(m) {
      ScanSound(cmd);
      var sp := Scan(cmd).value;
      assert RegexMatch(cmd, sp) && m == Groups(cmd, sp);
    }
    if exists sp :: RegexMatch(cmd, sp) && m == Groups(cmd, sp) {
      var sp :| RegexMatch(cmd, sp) && m == Groups(cmd, sp);
      ScanComplete(cmd, sp);
    }
  }

  lemma FirstWordExact(s: string, i: nat)
    requires i < |s| && IsWordChar(s[i])
    requires forall k :: 0 <= k < i ==> !IsWordChar(s[k])
    ensures FirstWord(s) == Some(i)
  {
  }

  lemma WordSpanExact(s: string, i: nat, j: nat)
    requires i <= j <= |s|
    requires forall k :: i <= k < j ==> IsWordChar(s[k])
    requires j == |s| || !IsWordChar(s[j])
    ensures i + WordSpan(s, i) == j
  {
  }

  lemma ParamSpanExact(s: string, i: nat, j: nat)
    requires i <= j <= |s|
    requires forall k :: i <= k < j ==> IsParamChar(s[k])
    requires j == |s| || !IsParamChar(s[j])
    ensures i + ParamSpan(s, i) == j
  {
  }

  /** The parameters carry neither separators nor surrounding white space, and
      they are exactly as many as the comma-separated pieces. */
  lemma ParametersShape(rest: string)
    ensures var ps := Parameters(rest);
      && |ps| == |Split(rest, ',')|
      && (forall k :: 0 <= k < |ps| ==> ',' !in ps[k])
      && (forall k :: 0 <= k < |ps| ==> ps[k] == [] || (!IsSpace(ps[k][0]) && !IsSpace(ps[k][|ps[k]| - 1])))
  {
    var parts := Split(rest, ',');
    var ps := Parameters(rest);
    forall k | 0 <= k < |ps|
      ensures ',' !in ps[k]
      ensures ps[k] == [] || (!IsSpace(ps[k][0]) && !IsSpace(ps[k][|ps[k]| - 1]))
    {
      assert ps[k] == Trim(parts[k]) && ',' !in parts[k];
      TrimmedPiece(parts[k]);
    }
  }

  /** A trimmed piece of the split keeps no separator and no outer space. */
  lemma TrimmedPiece(p: string)
    requires ',' !in p
    ensures ',' !in Trim(p)
    ensures Trim(p) == [] || (!IsSpace(Trim(p)[0]) && !IsSpace(Trim(p)[|Trim(p)| - 1]))
  {
    var l := TrimLeft(p);
    var t := TrimRight(l);
    NotInSlice(p, |p| - |l|, |p|, ',');
    NotInSlice(l, 0, |t|, ',');
    if t != [] {
      assert t[0] == l[0];
    }
  }

  /** A character absent from a string is absent from each of its slices. */
  lemma NotInSlice(s: string, i: nat, j: nat, c: char)
    requires i <= j <= |s| && c !in s
    ensures c !in s[i..j]
  {
    forall d | d in s[i..j] ensures d != c {
      var k :| 0 <= k < j - i && s[i..j][k] == d;
      assert s[i + k] == d;
    }
  }

  /** With no parameter text there is still exactly one (empty) parameter. */
  lemma ParametersOfEmpty()
    ensures Parameters("") == [""]
  {
  }
}
