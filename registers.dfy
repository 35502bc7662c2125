/** gpufi-instinject/extract_registers.py: the register names of a PTX text,
    from `%base<COUNT>` declarations and from every other `%name`, with the
    blocked ones dropped, deduplicated and in natural order. */
module Registers {
  import opened Wrappers
  import opened Seqs
  import opened Strings
  import opened Ordering

  // ---------------------------------------------------------------------
  // Character runs

  /** `[A-Za-z_]` */
  predicate IsLetter(c: char)
  {
    'A' <= c <= 'Z' || 'a' <= c <= 'z' || c == '_'
  }

  /** `[A-Za-z0-9_]` */
  predicate IsIdentChar(c: char)
  {
    IsLetter(c) || IsDigit(c)
  }

  /** `[A-Za-z_][A-Za-z0-9_]*` matched as a whole. */
  predicate IsIdent(s: string)
  {
    |s| >= 1 && IsLetter(s[0]) && forall k :: 0 <= k < |s| ==> IsIdentChar(s[k])
  }

  /** Where the longest run of `inRun` characters starting at `j` ends: the
      greedy `[...]*` of a regular expression. */
  function RunEnd(s: string, j: nat, inRun: char -> bool): (e: nat)
    requires j <= |s|
    ensures j <= e <= |s|
    ensures forall k :: j <= k < e ==> inRun(s[k])
    ensures e == |s| || !inRun(s[e])
    decreases |s| - j
  {
    if j < |s| && inRun(s[j]) then RunEnd(s, j + 1, inRun) else j
  }

  /** The longest run is the only run that cannot be extended. */
  lemma {:induction false} RunEndAt(s: string, j: nat, inRun: char -> bool, e: nat)
    requires j <= e <= |s|
    requires forall k :: j <= k < e ==> inRun(s[k])
    requires e == |s| || !inRun(s[e])
    ensures RunEnd(s, j, inRun) == e
    decreases e - j
  {
    if j < e {
      RunEndAt(s, j + 1, inRun, e);
    }
  }

  /** A piece written at `j` whose characters are all in the run, and which
      the run cannot go past, is the longest run at `j`. */
  lemma RunOf(s: string, j: nat, piece: string, inRun: char -> bool)
    requires j + |piece| <= |s| && s[j..j + |piece|] == piece
    requires forall k :: 0 <= k < |piece| ==> inRun(piece[k])
    requires j + |piece| == |s| || !inRun(s[j + |piece|])
    ensures RunEnd(s, j, inRun) == j + |piece|
  {
    forall k | j <= k < j + |piece| ensures inRun(s[k]) {
      assert s[k] == piece[k - j];
    }
    RunEndAt(s, j, inRun, j + |piece|);
  }

  // ---------------------------------------------------------------------
  // is_blocked

  /** The one entry of `blocked_prefixes`. */
  const BlockedPrefix := "ctaid"

  /** A base name whose lower-cased form starts with a blocked prefix. */
  predicate HasBlockedPrefix(base: string)
  {
    StartsWith(Lower(base), BlockedPrefix)
  }

  /** `is_blocked`: a name holding '.', or one whose leading letter run
      after '%' has a blocked prefix. */
  predicate IsBlocked(reg: string)
  {
    '.' in reg
    || (|reg| >= 2 && reg[0] == '%' && IsLetter(reg[1])
        && HasBlockedPrefix(reg[1..RunEnd(reg, 1, IsLetter)]))
  }

  /** `f"%{base_name}{i}"` */
  function Reg(base: string, i: nat): string
  {
    "%" + base + NatToString(i)
  }

  /** Only letters lower-case to "ctaid". */
  lemma PrefixLetters(b: string)
    requires HasBlockedPrefix(b)
    ensures forall k :: 0 <= k < |BlockedPrefix| ==> IsLetter(b[k])
  {
    forall k | 0 <= k < |BlockedPrefix| ensures IsLetter(b[k]) {
      assert Lower(b)[k] == BlockedPrefix[k];
    }
  }

  /** A run of letters at least as long as the prefix has it exactly when
      the whole base has it. */
  lemma PrefixOfRun(b: string, n: nat)
    requires |BlockedPrefix| <= n <= |b|
    ensures HasBlockedPrefix(b[..n]) <==> HasBlockedPrefix(b)
  {
    LowerSlice(b, 0, n);
    assert b[..n] == b[0..n];
    assert Lower(b)[..n][..|BlockedPrefix|] == Lower(b)[..|BlockedPrefix|];
  }

  /** The expansion of an identifier base is blocked exactly when the base
      has a blocked prefix: the skip of a blocked declaration and the
      `is_blocked` test on each name agree. */
  lemma ExpansionBlocked(b: string, i: nat)
    requires IsIdent(b)
    ensures IsBlocked(Reg(b, i)) <==> HasBlockedPrefix(b)
  {
    var digits := NatToString(i);
    var reg := Reg(b, i);
    assert reg == "%" + b + digits;
    assert reg[1] == b[0];
    assert '.' !in reg by {
      forall k | 0 <= k < |reg| ensures reg[k] != '.' {
        if 1 <= k < 1 + |b| {
          assert reg[k] == b[k - 1];
        } else if k >= 1 + |b| {
          assert reg[k] == digits[k - 1 - |b|];
        }
      }
    }
    var e := RunEnd(reg, 1, IsLetter);
    assert reg[1 + |b|] == digits[0];
    assert !IsLetter(reg[1 + |b|]);
    assert e <= 1 + |b|;
    assert reg[1..e] == b[..e - 1];
    if HasBlockedPrefix(b) {
      PrefixLetters(b);
      forall k | 1 <= k <= |BlockedPrefix| ensures IsLetter(reg[k]) {
        assert reg[k] == b[k - 1];
      }
      assert e - 1 >= |BlockedPrefix|;
      PrefixOfRun(b, e - 1);
    } else if e - 1 >= |BlockedPrefix| {
      PrefixOfRun(b, e - 1);
    }
  }

  // ---------------------------------------------------------------------
  // The two regular expressions

  /** One `%base<COUNT>` found at a position: the base, the digits of the
      count and where the match ends. */
  datatype DeclMatch = DeclMatch(base: string, digits: string, end: nat)

  function DeclText(base: string, digits: string): string
  {
    "%" + base + "<" + digits + ">"
  }

  /** `%(?P<base>[A-Za-z_][A-Za-z0-9_]*)<(?P<count>\d+)>` tried at `i`. */
  function DeclAt(text: string, i: nat): (r: Option<DeclMatch>)
    requires i <= |text|
    ensures r.Some? ==> IsIdent(r.value.base) && r.value.digits != "" && AllDigits(r.value.digits)
    ensures r.Some? ==> r.value.end == i + |DeclText(r.value.base, r.value.digits)| <= |text|
    ensures r.Some? ==> text[i..r.value.end] == DeclText(r.value.base, r.value.digits)
  {
    if i + 1 < |text| && text[i] == '%' && IsLetter(text[i + 1]) then
      var e := RunEnd(text, i + 1, IsIdentChar);
      if e < |text| && text[e] == '<' then
        var d := RunEnd(text, e + 1, IsDigit);
        if d > e + 1 && d < |text| && text[d] == '>' then
          DeclTextAt(text, i, e, d);
          Some(DeclMatch(text[i + 1..e], text[e + 1..d], d + 1))
        else None
      else None
    else None
  }

  /** Wherever a declaration is written, it is what `DeclAt` finds there. */
  lemma DeclAtFinds(text: string, i: nat, base: string, digits: string)
    requires IsIdent(base) && digits != "" && AllDigits(digits)
    requires i + |DeclText(base, digits)| <= |text|
    requires text[i..i + |DeclText(base, digits)|] == DeclText(base, digits)
    ensures DeclAt(text, i) == Some(DeclMatch(base, digits, i + |DeclText(base, digits)|))
  {
    var e, d := i + 1 + |base|, i + 2 + |base| + |digits|;
    DeclWrittenAt(text, i, base, digits);
    RunEndAt(text, i + 1, IsIdentChar, e);
    RunEndAt(text, e + 1, IsDigit, d);
    DeclAtRuns(text, i, e, d);
  }

  /** A written declaration, character by character. */
  lemma DeclWrittenAt(text: string, i: nat, base: string, digits: string)
    requires IsIdent(base) && digits != "" && AllDigits(digits)
    requires i + |DeclText(base, digits)| <= |text|
    requires text[i..i + |DeclText(base, digits)|] == DeclText(base, digits)
    ensures i + |base| + |digits| + 3 <= |text|
    ensures text[i] == '%' && IsLetter(text[i + 1])
    ensures text[i + 1 + |base|] == '<' && text[i + 2 + |base| + |digits|] == '>'
    ensures forall k :: i + 1 <= k < i + 1 + |base| ==> IsIdentChar(text[k])
    ensures forall k :: i + 2 + |base| <= k < i + 2 + |base| + |digits| ==> IsDigit(text[k])
    ensures text[i + 1..i + 1 + |base|] == base
    ensures text[i + 2 + |base|..i + 2 + |base| + |digits|] == digits
  {
    var t := DeclText(base, digits);
    DeclTextParts(base, digits);
    forall k | 0 <= k < |t| ensures text[i + k] == t[k] {
      assert text[i..i + |t|][k] == text[i + k];
    }
    assert text[i + 1] == base[0];
    forall k | i + 1 <= k < i + 1 + |base| ensures IsIdentChar(text[k]) && text[k] == base[k - i - 1] {
      assert text[k] == t[1 + (k - i - 1)];
    }
    forall k | i + 2 + |base| <= k < i + 2 + |base| + |digits|
      ensures IsDigit(text[k]) && text[k] == digits[k - i - 2 - |base|]
    {
      assert text[k] == t[2 + |base| + (k - i - 2 - |base|)];
    }
    assert text[i + 1..i + 1 + |base|] == base;
    assert text[i + 2 + |base|..i + 2 + |base| + |digits|] == digits;
  }

  lemma DeclAtRuns(text: string, i: nat, e: nat, d: nat)
    requires i + 1 < e < d < |text| && d > e + 1
    requires text[i] == '%' && IsLetter(text[i + 1]) && text[e] == '<' && text[d] == '>'
    requires RunEnd(text, i + 1, IsIdentChar) == e && RunEnd(text, e + 1, IsDigit) == d
    ensures DeclAt(text, i) == Some(DeclMatch(text[i + 1..e], text[e + 1..d], d + 1))
  {
  }

  /** The text from '%' through '>' spells the declaration of its parts. */
  lemma DeclTextAt(text: string, i: nat, e: nat, d: nat)
    requires i < e < d < |text|
    requires text[i] == '%' && text[e] == '<' && text[d] == '>'
    ensures text[i..d + 1] == DeclText(text[i + 1..e], text[e + 1..d])
  {
    var base, digits := text[i + 1..e], text[e + 1..d];
    DeclTextParts(base, digits);
    var t := DeclText(base, digits);
    forall k | 0 <= k < d + 1 - i ensures text[i..d + 1][k] == t[k] {
      if 1 <= k < 1 + |base| {
        assert t[k] == base[k - 1];
      } else if 2 + |base| <= k < d - i {
        assert t[2 + |base| + (k - 2 - |base|)] == digits[k - 2 - |base|];
      }
    }
  }

  lemma DeclTextParts(base: string, digits: string)
    ensures |DeclText(base, digits)| == |base| + |digits| + 3
    ensures DeclText(base, digits)[0] == '%'
    ensures forall k :: 0 <= k < |base| ==> DeclText(base, digits)[1 + k] == base[k]
    ensures DeclText(base, digits)[1 + |base|] == '<'
    ensures forall k :: 0 <= k < |digits| ==> DeclText(base, digits)[2 + |base| + k] == digits[k]
    ensures DeclText(base, digits)[|base| + |digits| + 2] == '>'
  {
  }

  /** The general pattern tried at `i`: '%' and the longest identifier after
      it, unless that identifier is followed by '<'. The trailing
      `(?:_[A-Za-z0-9_]+)*(?:\d+)?` can add nothing after the longest
      identifier. */
  function NameAt(text: string, i: nat): (r: Option<string>)
    requires i <= |text|
    ensures r.Some? ==> |r.value| >= 2 && r.value[0] == '%' && IsIdent(r.value[1..])
    ensures r.Some? ==> i + |r.value| <= |text| && text[i..i + |r.value|] == r.value
    ensures r.Some? ==> i + |r.value| == |text| || (text[i + |r.value|] != '<' && !IsIdentChar(text[i + |r.value|]))
  {
    if i + 1 < |text| && text[i] == '%' && IsLetter(text[i + 1]) then
      var e := RunEnd(text, i + 1, IsIdentChar);
      if e < |text| && text[e] == '<' then None
      else
        assert text[i..e][1..] == text[i + 1..e];
        Some(text[i..e])
    else None
  }

  /** Wherever '%' and a longest identifier not followed by '<' are
      written, `NameAt` finds that name. */
  lemma NameAtFinds(text: string, i: nat, name: string)
    requires IsIdent(name) && i + 1 + |name| <= |text|
    requires text[i] == '%' && text[i + 1..i + 1 + |name|] == name
    requires i + 1 + |name| == |text| || (text[i + 1 + |name|] != '<' && !IsIdentChar(text[i + 1 + |name|]))
    ensures NameAt(text, i) == Some("%" + name)
  {
    var e := i + 1 + |name|;
    assert text[i + 1] == name[0];
    RunOf(text, i + 1, name, IsIdentChar);
    assert text[i..e] == [text[i]] + text[i + 1..e];
  }

  /** `re.findall` of the declaration pattern from `i` on: after a match
      the search goes on where it ended. */
  function DeclsFrom(text: string, i: nat): (ds: seq<DeclMatch>)
    requires i <= |text|
    ensures forall d :: d in ds ==> IsIdent(d.base) && d.digits != "" && AllDigits(d.digits)
    ensures forall d :: d in ds ==>
              i + |DeclText(d.base, d.digits)| <= d.end <= |text| &&
              text[d.end - |DeclText(d.base, d.digits)|..d.end] == DeclText(d.base, d.digits)
    decreases |text| - i
  {
    if i == |text| then []
    else
      match DeclAt(text, i)
      case Some(d) => [d] + DeclsFrom(text, d.end)
      case None => DeclsFrom(text, i + 1)
  }

  /** `general_pattern.finditer` from `i` on. */
  function NamesFrom(text: string, i: nat): (ms: seq<string>)
    requires i <= |text|
    decreases |text| - i
  {
    if i == |text| then []
    else
      match NameAt(text, i)
      case Some(m) => [m] + NamesFrom(text, i + |m|)
      case None => NamesFrom(text, i + 1)
  }

  /** Inside a declaration found at `i`, only its first character is '%'. */
  lemma DeclHasOnePercent(text: string, i: nat, d: DeclMatch)
    requires i <= |text| && DeclAt(text, i) == Some(d)
    ensures forall k :: i < k < d.end ==> text[k] != '%'
  {
    var t := DeclText(d.base, d.digits);
    DeclTextParts(d.base, d.digits);
    forall k | i < k < d.end ensures text[k] != '%' {
      assert text[k] == text[i..d.end][k - i] == t[k - i];
      if k - i <= |d.base| {
        assert t[k - i] == d.base[k - i - 1];
      } else if 2 + |d.base| <= k - i < 2 + |d.base| + |d.digits| {
        assert t[k - i] == d.digits[k - i - 2 - |d.base|];
      }
    }
  }

  /** `findall` finds every declaration written at or after `i`: the
      declarations it steps over hold no '%' past their first character,
      so none of them hides a later one. */
  lemma {:induction false} DeclsFromFinds(text: string, i: nat, j: nat, base: string, digits: string)
    requires i <= j && IsIdent(base) && digits != "" && AllDigits(digits)
    requires j + |DeclText(base, digits)| <= |text|
    requires text[j..j + |DeclText(base, digits)|] == DeclText(base, digits)
    ensures DeclMatch(base, digits, j + |DeclText(base, digits)|) in DeclsFrom(text, i)
    decreases |text| - i
  {
    DeclWrittenAt(text, j, base, digits);
    if i == j {
      DeclAtFinds(text, j, base, digits);
    } else {
      match DeclAt(text, i)
      case Some(d) =>
        DeclHasOnePercent(text, i, d);
        assert d.end <= j;
        DeclsFromFinds(text, d.end, j, base, digits);
      case None =>
        DeclsFromFinds(text, i + 1, j, base, digits);
    }
  }

  /** Inside a name found at `i`, only its first character is '%'. */
  lemma NameHasOnePercent(text: string, i: nat, m: string)
    requires i <= |text| && NameAt(text, i) == Some(m)
    ensures forall k :: i < k < i + |m| ==> text[k] != '%'
  {
    forall k | i < k < i + |m| ensures text[k] != '%' {
      assert text[k] == text[i..i + |m|][k - i] == m[1..][k - i - 1];
    }
  }

  /** One step of the scan: the name found at `i`, if any, then the rest. */
  lemma NamesFromStep(text: string, i: nat)
    requires i < |text|
    ensures NameAt(text, i).Some? ==>
              |NameAt(text, i).value| > 0 &&
              NamesFrom(text, i) == [NameAt(text, i).value] + NamesFrom(text, i + |NameAt(text, i).value|)
    ensures NameAt(text, i).None? ==> NamesFrom(text, i) == NamesFrom(text, i + 1)
  {
  }

  /** The scan from `i` reaches every name that `NameAt` finds at or after `i`. */
  lemma {:induction false} NamesFromReaches(text: string, i: nat, j: nat)
    requires i <= j < |text| && text[j] == '%' && NameAt(text, j).Some?
    ensures NameAt(text, j).value in NamesFrom(text, i)
    decreases |text| - i
  {
    NamesFromStep(text, i);
    if i < j {
      var r := NameAt(text, i);
      if r.Some? {
        var m := r.value;
        NameHasOnePercent(text, i, m);
        assert i + |m| <= j;
        NamesFromReaches(text, i + |m|, j);
      } else {
        NamesFromReaches(text, i + 1, j);
      }
    }
  }

  /** `finditer` finds every name written at or after `i` that is a longest
      identifier not followed by '<'. */
  lemma NamesFromFinds(text: string, i: nat, j: nat, name: string)
    requires i <= j && IsIdent(name) && j + 1 + |name| <= |text|
    requires text[j] == '%' && text[j + 1..j + 1 + |name|] == name
    requires j + 1 + |name| == |text| || (text[j + 1 + |name|] != '<' && !IsIdentChar(text[j + 1 + |name|]))
    ensures "%" + name in NamesFrom(text, i)
  {
    NameAtFinds(text, j, name);
    NamesFromReaches(text, i, j);
  }

  /** `m` is written at `j` and not followed by '<' there. */
  predicate WrittenBeforeNoAngle(text: string, j: nat, m: string)
  {
    j + |m| <= |text| && text[j..j + |m|] == m && (j + |m| == |text| || text[j + |m|] != '<')
  }

  /** Every name of the general scan is '%' and an identifier, written in
      the text and not followed by '<' there. */
  lemma {:induction false} ScannedNamesNotDeclarations(text: string, i: nat)
    requires i <= |text|
    ensures forall m :: m in NamesFrom(text, i) ==>
      |m| >= 2 && m[0] == '%' && IsIdent(m[1..]) && exists j :: i <= j && WrittenBeforeNoAngle(text, j, m)
    decreases |text| - i
  {
    if i < |text| {
      var r := NameAt(text, i);
      var next := if r.Some? then i + |r.value| else i + 1;
      ScannedNamesNotDeclarations(text, next);
      var rest := NamesFrom(text, next);
      NamesFromStep(text, i);
      assert NamesFrom(text, i) == (if r.Some? then [r.value] else []) + rest;
      forall m | m in NamesFrom(text, i)
        ensures |m| >= 2 && m[0] == '%' && IsIdent(m[1..]) && exists j :: i <= j && WrittenBeforeNoAngle(text, j, m)
      {
        if r.Some? && m == r.value {
          assert WrittenBeforeNoAngle(text, i, m);
        } else {
          assert m in rest;
          var j :| next <= j && WrittenBeforeNoAngle(text, j, m);
          assert i <= j;
        }
      }
    }
  }

  /** A scanned name never holds '.', so `is_blocked` drops a scanned name
      only for its prefix: a dotted special register such as `%tid.x`
      contributes its part before the dot. */
  lemma ScannedNamesHaveNoDot(text: string, m: string)
    requires m in NamesFrom(text, 0)
    ensures |m| >= 2 && '.' !in m && (IsBlocked(m) <==> HasBlockedPrefix(m[1..RunEnd(m, 1, IsLetter)]))
  {
    ScannedNamesNotDeclarations(text, 0);
    forall k | 0 <= k < |m| ensures m[k] != '.' {
      if k > 0 {
        assert m[k] == m[1..][k - 1];
      }
    }
  }

  /** `%tid.x` yields `%tid`, which is kept. */
  lemma DottedSpecialRegister()
    ensures NamesFrom("%tid.x", 0) == ["%tid"]
    ensures "%tid" in Collected("%tid.x")
  {
    var text := "%tid.x";
    assert text[1..4] == "tid" && text[4] == '.';
    NameAtFinds(text, 0, "tid");
    assert "%" + "tid" == "%tid";
    assert NameAt(text, 4) == None;
    assert NameAt(text, 5) == None;
    assert NamesFrom(text, 6) == [];
    assert NamesFrom(text, 5) == [];
    assert NamesFrom(text, 4) == [];
    assert NamesFrom(text, 0) == ["%tid"];
    assert !IsBlocked("%tid") by {
      RunEndAt("%tid", 1, IsLetter, 4);
      assert "%tid"[1..4] == "tid";
    }
  }

  // ---------------------------------------------------------------------
  // What main collects

  /** The names one declaration adds: `%base0` … `%base(COUNT-1)` that are
      not blocked, and nothing for a blocked base. */
  function Expansion(d: DeclMatch): set<string>
  {
    if HasBlockedPrefix(d.base) then {}
    else set i | 0 <= i < DigitsValue(d.digits) && !IsBlocked(Reg(d.base, i)) :: Reg(d.base, i)
  }

  function FromDecls(ds: seq<DeclMatch>): set<string>
  {
    if ds == [] then {} else FromDecls(ds[..|ds| - 1]) + Expansion(ds[|ds| - 1])
  }

  function FromNames(ms: seq<string>): set<string>
  {
    set m | m in ms && !IsBlocked(m)
  }

  /** The set `registers` once both loops are done. */
  function Collected(text: string): set<string>
  {
    FromDecls(DeclsFrom(text, 0)) + FromNames(NamesFrom(text, 0))
  }

  /** The names `%base0` … `%base(n-1)`. */
  function RegRange(base: string, n: nat): set<string>
  {
    set i | 0 <= i < n :: Reg(base, i)
  }

  /** Different indices give different names. */
  lemma RegInjective(base: string, i: nat, j: nat)
    requires Reg(base, i) == Reg(base, j)
    ensures i == j
  {
    var p := "%" + base;
    assert Reg(base, i)[|p|..] == NatToString(i);
    assert Reg(base, j)[|p|..] == NatToString(j);
    NatToStringValue(i);
    NatToStringValue(j);
  }

  lemma {:induction false} RegRangeSize(base: string, n: nat)
    ensures |RegRange(base, n)| == n
  {
    if n > 0 {
      var prev, x := RegRange(base, n - 1), Reg(base, n - 1);
      RegRangeSize(base, n - 1);
      forall r | r in RegRange(base, n) ensures r in prev + {x} {
        var i :| 0 <= i < n && Reg(base, i) == r;
        if i < n - 1 {
          assert r in prev;
        }
      }
      forall r | r in prev ensures r in RegRange(base, n) {
        var i :| 0 <= i < n - 1 && Reg(base, i) == r;
      }
      assert RegRange(base, n) == prev + {x};
      if x in prev {
        var i :| 0 <= i < n - 1 && Reg(base, i) == x;
        RegInjective(base, i, n - 1);
      }
    }
  }

  /** A declaration with an unblocked base adds exactly `%base0` …
      `%base(COUNT-1)`, COUNT names in all; one with a blocked base adds
      nothing. */
  lemma ExpansionExact(d: DeclMatch)
    requires IsIdent(d.base)
    ensures Expansion(d) == if HasBlockedPrefix(d.base) then {} else RegRange(d.base, DigitsValue(d.digits))
    ensures |Expansion(d)| == if HasBlockedPrefix(d.base) then 0 else DigitsValue(d.digits)
  {
    forall i: nat ensures !IsBlocked(Reg(d.base, i)) <==> !HasBlockedPrefix(d.base) {
      ExpansionBlocked(d.base, i);
    }
    RegRangeSize(d.base, DigitsValue(d.digits));
  }

  lemma {:induction false} FromDeclsUnblocked(ds: seq<DeclMatch>)
    ensures forall r :: r in FromDecls(ds) ==> !IsBlocked(r)
  {
    if ds != [] {
      FromDeclsUnblocked(ds[..|ds| - 1]);
    }
  }

  /** The declarations together add exactly the names `%base<i>` with
      `i < COUNT` of their unblocked bases. */
  lemma {:induction false} FromDeclsExact(ds: seq<DeclMatch>, r: string)
    requires forall d :: d in ds ==> IsIdent(d.base)
    ensures r in FromDecls(ds) <==>
      exists d, i: nat :: d in ds && !HasBlockedPrefix(d.base) && i < DigitsValue(d.digits) && r == Reg(d.base, i)
  {
    if ds != [] {
      var init, last := ds[..|ds| - 1], ds[|ds| - 1];
      assert forall d :: d in init ==> d in ds;
      FromDeclsExact(init, r);
      ExpansionExact(last);
      if r in FromDecls(ds) && r !in FromDecls(init) {
        var i: nat :| i < DigitsValue(last.digits) && r == Reg(last.base, i);
      }
      if exists d, i: nat :: d in ds && !HasBlockedPrefix(d.base) && i < DigitsValue(d.digits) && r == Reg(d.base, i) {
        var d, i: nat :| d in ds && !HasBlockedPrefix(d.base) && i < DigitsValue(d.digits) && r == Reg(d.base, i);
        if d != last {
          assert d in init;
        }
      }
    }
  }

  /** No collected name is blocked. */
  lemma CollectedUnblocked(text: string)
    ensures forall r :: r in Collected(text) ==> !IsBlocked(r)
  {
    FromDeclsUnblocked(DeclsFrom(text, 0));
  }

  /** Every `%base<COUNT>` written anywhere in the text with an unblocked
      base contributes `%base0` … `%base(COUNT-1)`. */
  lemma WrittenDeclarationCollected(text: string, j: nat, base: string, digits: string, i: nat)
    requires IsIdent(base) && digits != "" && AllDigits(digits)
    requires j + |DeclText(base, digits)| <= |text|
    requires text[j..j + |DeclText(base, digits)|] == DeclText(base, digits)
    requires !HasBlockedPrefix(base) && i < DigitsValue(digits)
    ensures Reg(base, i) in Collected(text)
  {
    DeclsFromFinds(text, 0, j, base, digits);
    FromDeclsExact(DeclsFrom(text, 0), Reg(base, i));
  }

  /** Every unblocked name written anywhere in the text as '%' and a longest
      identifier not followed by '<' is collected. */
  lemma WrittenNameCollected(text: string, j: nat, name: string)
    requires IsIdent(name) && j + 1 + |name| <= |text|
    requires text[j] == '%' && text[j + 1..j + 1 + |name|] == name
    requires j + 1 + |name| == |text| || (text[j + 1 + |name|] != '<' && !IsIdentChar(text[j + 1 + |name|]))
    requires !IsBlocked("%" + name)
    ensures "%" + name in Collected(text)
  {
    NamesFromFinds(text, 0, j, name);
  }

  // ---------------------------------------------------------------------
  // natural_key

  /** One element of the key tuple: a text run or the value of a digit run. */
  datatype KeyPart = Text(s: string) | Num(n: nat)

  /** `s.lstrip('%')` */
  function StripPercent(s: string): (r: string)
    ensures r == [] || r[0] != '%'
    ensures |r| <= |s| && r == s[|s| - |r|..]
    ensures forall j :: 0 <= j < |s| - |r| ==> s[j] == '%'
  {
    if s != [] && s[0] == '%' then StripPercent(s[1..]) else s
  }

  predicate IsTextChar(c: char)
  {
    !IsDigit(c)
  }

  /** `re.split(r'(\d+)', name)` with each digit run turned into its value:
      text and numbers alternate, starting and ending with a (possibly
      empty) text, so tuples compared position by position never set a
      number against a text. */
  function Chunks(name: string): (key: seq<KeyPart>)
    ensures |key| % 2 == 1
    ensures forall j :: 0 <= j < |key| ==> (key[j].Num? <==> j % 2 == 1)
    decreases |name|
  {
    var e := RunEnd(name, 0, IsTextChar);
    if e == |name| then [Text(name)]
    else
      var d := RunEnd(name, e, IsDigit);
      var rest := Chunks(name[d..]);
      var key := [Text(name[..e]), Num(DigitsValue(name[e..d]))] + rest;
      assert forall j :: 2 <= j < |key| ==> key[j] == rest[j - 2];
      key
  }

  function NaturalKey(s: string): seq<KeyPart>
  {
    Chunks(StripPercent(s))
  }

  /** Python's `<` between two tuple elements; a number against a text
      cannot arise (see `Chunks`) and is put first only to keep the order
      total. */
  predicate PartLt(a: KeyPart, b: KeyPart)
  {
    match (a, b)
    case (Text(x), Text(y)) => StrLt(x, y)
    case (Num(x), Num(y)) => x < y
    case (Num(_), Text(_)) => true
    case (Text(_), Num(_)) => false
  }

  lemma PartLtStrictTotal()
    ensures StrictTotal(PartLt)
  {
    StrLtStrictTotal();
  }

  predicate KeyLt(a: seq<KeyPart>, b: seq<KeyPart>)
  {
    LexLt(a, b, PartLt)
  }

  /** `natural_key(a) < natural_key(b)` */
  predicate NaturalLt(a: string, b: string)
  {
    KeyLt(NaturalKey(a), NaturalKey(b))
  }

  /** `sorted(..., key=natural_key)` puts `a` no later than `b`. */
  predicate NaturalLe(a: string, b: string)
  {
    !NaturalLt(b, a)
  }

  lemma NaturalLePreorder()
    ensures TotalPreorder(NaturalLe)
  {
    PartLtStrictTotal();
    LexStrictTotal(PartLt, KeyLt);
    forall a, b, c | NaturalLe(a, b) && NaturalLe(b, c) ensures NaturalLe(a, c) {
      var ka, kb, kc := NaturalKey(a), NaturalKey(b), NaturalKey(c);
      assert ka == kb || KeyLt(ka, kb) || KeyLt(kb, ka);
    }
  }

  /** A name without digits is one text part. */
  lemma ChunksOfText(t: string)
    requires forall k :: 0 <= k < |t| ==> !IsDigit(t[k])
    ensures Chunks(t) == [Text(t)]
  {
    RunEndAt(t, 0, IsTextChar, |t|);
  }

  /** Where the text run and the digit run of `t + d + rest` end. */
  lemma TextThenDigits(t: string, d: string, rest: string)
    requires forall k :: 0 <= k < |t| ==> !IsDigit(t[k])
    requires d != "" && AllDigits(d)
    requires rest == "" || !IsDigit(rest[0])
    ensures RunEnd(t + d + rest, 0, IsTextChar) == |t| < |t + d + rest|
    ensures RunEnd(t + d + rest, |t|, IsDigit) == |t| + |d|
  {
    var s := t + d + rest;
    var e, f := |t|, |t| + |d|;
    forall k | 0 <= k < e ensures IsTextChar(s[k]) {
      assert s[k] == t[k];
    }
    assert s[e] == d[0];
    RunEndAt(s, 0, IsTextChar, e);
    forall k | e <= k < f ensures IsDigit(s[k]) {
      assert s[k] == d[k - e];
    }
    if f < |s| {
      assert s[f] == rest[0];
    }
    RunEndAt(s, e, IsDigit, f);
  }

  /** A text without digits, a digit run and a rest that does not go on with
      a digit: the key is the text, the run's value and the rest's key. */
  lemma ChunksStep(t: string, d: string, rest: string)
    requires forall k :: 0 <= k < |t| ==> !IsDigit(t[k])
    requires d != "" && AllDigits(d)
    requires rest == "" || !IsDigit(rest[0])
    ensures Chunks(t + d + rest) == [Text(t), Num(DigitsValue(d))] + Chunks(rest)
  {
    var s := t + d + rest;
    TextThenDigits(t, d, rest);
    assert s[..|t|] == t && s[|t|..|t| + |d|] == d && s[|t| + |d|..] == rest;
  }

  /** The text run before the first digit of `s` when `s` is a text followed
      by digits. */
  lemma ChunksOfName(b: string, digits: string)
    requires forall k :: 0 <= k < |b| ==> !IsDigit(b[k])
    requires digits != "" && AllDigits(digits)
    ensures Chunks(b + digits) == [Text(b), Num(DigitsValue(digits)), Text("")]
  {
    var s := b + digits;
    forall k | 0 <= k < |b| ensures IsTextChar(s[k]) {
      assert s[k] == b[k];
    }
    assert s[|b|] == digits[0];
    RunEndAt(s, 0, IsTextChar, |b|);
    forall k | |b| <= k < |s| ensures IsDigit(s[k]) {
      assert s[k] == digits[k - |b|];
    }
    RunEndAt(s, |b|, IsDigit, |s|);
    assert s[..|b|] == b && s[|b|..|s|] == digits && s[|s|..] == "";
    assert Chunks("") == [Text("")];
  }

  /** The key of an expanded name whose base has no digit: the base, the
      index and an empty text. */
  lemma RegKey(b: string, i: nat)
    requires IsIdent(b) && forall k :: 0 <= k < |b| ==> !IsDigit(b[k])
    ensures NaturalKey(Reg(b, i)) == [Text(b), Num(i), Text("")]
  {
    var s := Reg(b, i);
    assert s[1..] == b + NatToString(i);
    assert s[1] == b[0];
    assert StripPercent(s) == b + NatToString(i);
    ChunksOfName(b, NatToString(i));
    NatToStringValue(i);
  }

  /** Two keys that differ only in their middle number compare as the numbers. */
  lemma KeyOfIndexLt(b: string, i: nat, j: nat)
    ensures KeyLt([Text(b), Num(i), Text("")], [Text(b), Num(j), Text("")]) <==> i < j
  {
    PartLtStrictTotal();
    var ti, tj := [Num(i), Text("")], [Num(j), Text("")];
    assert [Text(b), Num(i), Text("")][1..] == ti && [Text(b), Num(j), Text("")][1..] == tj;
    assert !PartLt(Text(b), Text(b));
    assert ti[1..] == tj[1..] == [Text("")];
    LexIrreflexive([Text("")], PartLt);
    assert LexLt(ti, tj, PartLt) == (i < j);
  }

  /** Natural order puts `%r2` before `%r10`: names from one digit-free
      base are ordered by their index. */
  lemma RegOrder(b: string, i: nat, j: nat)
    requires IsIdent(b) && forall k :: 0 <= k < |b| ==> !IsDigit(b[k])
    ensures NaturalLt(Reg(b, i), Reg(b, j)) <==> i < j
  {
    RegKey(b, i);
    RegKey(b, j);
    KeyOfIndexLt(b, i, j);
  }

  // ---------------------------------------------------------------------
  // main

  /** The inner loop over `range(count)` for one unblocked declaration. */
  method Expand(registers: set<string>, d: DeclMatch) returns (r: set<string>)
    requires !HasBlockedPrefix(d.base)
    ensures r == registers + Expansion(d)
  {
    r := registers;
    var count := DigitsValue(d.digits);
    for i := 0 to count
      invariant r == registers + set k | 0 <= k < i && !IsBlocked(Reg(d.base, k)) :: Reg(d.base, k)
    {
      var reg := Reg(d.base, i);
      if !IsBlocked(reg) {
        r := r + {reg};
      }
    }
  }

  /** The loop over the declarations. */
  method ExpandAll(decls: seq<DeclMatch>) returns (registers: set<string>)
    ensures registers == FromDecls(decls)
  {
    registers := {};
    for j := 0 to |decls|
      invariant registers == FromDecls(decls[..j])
    {
      assert decls[..j + 1][..j] == decls[..j];
      var d := decls[j];
      if HasBlockedPrefix(d.base) {
        continue;
      }
      registers := Expand(registers, d);
    }
    assert decls[..|decls|] == decls;
  }

  /** The loop over the general matches. */
  method AddScanned(registers: set<string>, names: seq<string>) returns (r: set<string>)
    ensures r == registers + FromNames(names)
  {
    r := registers;
    for j := 0 to |names|
      invariant r == registers + FromNames(names[..j])
    {
      assert names[..j + 1] == names[..j] + [names[j]];
      var reg := names[j];
      if !IsBlocked(reg) {
        r := r + {reg};
      }
    }
    assert names[..|names|] == names;
  }

  /** Both loops of `main` over the text, then `sorted(registers,
      key=natural_key)`. */
  method ExtractRegisters(text: string) returns (sorted: seq<string>)
    ensures Distinct(sorted)
    ensures forall r :: r in sorted <==> r in Collected(text)
    ensures SortedBy(sorted, NaturalLe)
  {
    var registers := ExpandAll(DeclsFrom(text, 0));
    registers := AddScanned(registers, NamesFrom(text, 0));
    NaturalLePreorder();
    sorted := SortSet(registers, NaturalLe);
  }
}
