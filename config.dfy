/**
 * The client's configuration: read from a Hash, or from a YAML file whose
 * `common` section is overridden key by key by the section of the chosen
 * environment; a cache section's size limit, which may be written "2mb",
 * is turned into a number of bytes.
 */
module Configuration {
  import opened Wrappers
  import opened Errors
  import opened RubyText
  import opened RubyValues

  // ---------------------------------------------------------------------------
  // parse_file_size

  /** The length of the run of decimal digits t starts with. */
  function DigitRun(t: string): (n: nat)
    ensures n <= |t| && AllDigits(t[..n]) && (n < |t| ==> !IsDigit(t[n]))
  {
    if t != [] && IsDigit(t[0]) then
      var n := 1 + DigitRun(t[1..]);
      assert t[..n] == [t[0]] + t[1..][..n - 1];
      n
    else 0
  }

  /** The length of the run of whitespace (Ruby's \s) t starts with. */
  function SpaceRun(t: string): (n: nat)
    ensures n <= |t| && (n < |t| ==> !IsSpace(t[n]))
  {
    if t != [] && IsSpace(t[0]) then 1 + SpaceRun(t[1..]) else 0
  }

  predicate IsUnitLetter(c: char) { c in "kKmMgG" }

  /**
   * A match of /^(\d+)\s*(k|m|g)b$/i that starts at position p: p begins a
   * line, then a run of digits (the first group), whitespace, which may
   * include newlines, a unit letter of either case (the second group) and
   * a b of either case that ends a line. The digit and space runs can only
   * be taken whole, because the next part of the pattern cannot start with
   * a digit or a space.
   */
  function MatchAt(s: string, p: nat): (m: Option<(string, char)>)
    requires p <= |s|
    ensures m.Some? ==> |m.value.0| > 0 && AllDigits(m.value.0) && IsUnitLetter(m.value.1)
  {
    if p > 0 && s[p - 1] != '\n' then None
    else
      var d := DigitRun(s[p..]);
      if d == 0 then None
      else
        var q := p + d + SpaceRun(s[p + d..]);
        if q + 2 <= |s| && IsUnitLetter(s[q]) && s[q + 1] in "bB" && (q + 2 == |s| || s[q + 2] == '\n')
        then
          assert s[p..p + d] == s[p..][..d];
          Some((s[p..p + d], s[q]))
        else None
  }

  /** The leftmost match at or after position p, as Regexp#match finds it. */
  function FirstMatch(s: string, p: nat): (m: Option<(string, char)>)
    requires p <= |s|
    ensures m.Some? ==> |m.value.0| > 0 && AllDigits(m.value.0) && IsUnitLetter(m.value.1)
    decreases |s| - p
  {
    if MatchAt(s, p).Some? then MatchAt(s, p)
    else if p == |s| then None
    else FirstMatch(s, p + 1)
  }

  /** "kmg".index(letter): case-sensitive, so an upper-case unit has none. */
  function UnitIndex(c: char): (r: Option<nat>)
    ensures r.Some? <==> c in "kmg"
    ensures r.Some? ==> r.value < 3 && "kmg"[r.value] == c
  {
    if c == 'k' then Some(0) else if c == 'm' then Some(1) else if c == 'g' then Some(2) else None
  }

  /**
   * Config.parse_file_size: nil and false give nil, a number passes
   * through, a String of digits only is read as a number, and
   * "<digits><spaces><k|m|g>b" is that many kilo-, mega- or gigabytes.
   * Any other String raises FFeaturesConfigInvalid; an upper-case unit
   * letter passes the case-insensitive pattern but has no index in "kmg",
   * and adding 1 to nil raises.
   */
  function ParseFileSize(size: Value): (r: Result<Value, Error>)
    ensures !Truthy(size) ==> r == Ok(Nil)
    ensures size.Int? ==> r == Ok(size)
    ensures size.Str? && AllDigits(size.s) ==> r == Ok(Int(DigitsValue(size.s)))
    ensures r.Ok? && size.Str? ==> r.value.Int? && r.value.i >= 0
    ensures size.Str? && !AllDigits(size.s) && FirstMatch(size.s, 0).None? ==> r == Err(ConfigInvalid)
  {
    if !Truthy(size) then Ok(Nil)
    else if size.Int? then Ok(size)
    else if !size.Str? then Err(RuntimeFault)
    // String#to_i of a String of digits is their value.
    else if AllDigits(size.s) then Ok(Int(DigitsValue(size.s)))
    else match FirstMatch(size.s, 0)
      case None => Err(ConfigInvalid)
      case Some((digits, unit)) =>
        match UnitIndex(unit)
        case None => Err(RuntimeFault)
        case Some(k) => Ok(Int(DigitsValue(digits) * Pow(1024, k + 1)))
  }

  /** A number written out in digits reads back as itself. */
  lemma ParseFileSizeDigits(n: nat)
    ensures ParseFileSize(Str(NatDecimal(n))) == Ok(Int(n))
  {
    DecimalRoundTrip(n);
  }

  /** A line of digits, spaces, a unit letter and a b matches at its start, the digits taken whole. */
  lemma MatchAtStart(ds: string, spaces: nat, unit: char, b: char)
    requires |ds| > 0 && AllDigits(ds) && IsUnitLetter(unit) && b in "bB"
    ensures MatchAt(ds + seq(spaces, _ => ' ') + [unit, b], 0) == Some((ds, unit))
  {
    var sp := seq(spaces, _ => ' ');
    var s := ds + sp + [unit, b];
    assert s[0..] == ds + (sp + [unit, b]);
    DigitRunWhole(ds, sp + [unit, b]);
    assert s[|ds|..] == sp + [unit, b];
    SpaceRunWhole(sp, [unit, b]);
    assert s[0..|ds|] == ds;
  }

  /**
   * n written out, any number of spaces, then kb, mb or gb, is n times
   * 1024, 1024^2 or 1024^3.
   */
  lemma ParseFileSizeUnits(n: nat, spaces: nat, unit: char)
    requires unit in "kmg"
    ensures ParseFileSize(Str(NatDecimal(n) + seq(spaces, _ => ' ') + [unit, 'b']))
            == Ok(Int(n * Pow(1024, UnitIndex(unit).value + 1)))
  {
    var s := NatDecimal(n) + seq(spaces, _ => ' ') + [unit, 'b'];
    MatchAtStart(NatDecimal(n), spaces, unit, 'b');
    assert !IsDigit(s[|s| - 1]);
    DecimalRoundTrip(n);
  }

  lemma DigitRunWhole(a: string, b: string)
    requires AllDigits(a) && (b == [] || !IsDigit(b[0]))
    ensures DigitRun(a + b) == |a|
  {
    if a != [] {
      assert (a + b)[1..] == a[1..] + b;
      DigitRunWhole(a[1..], b);
    }
  }

  lemma SpaceRunWhole(a: string, b: string)
    requires (forall i :: 0 <= i < |a| ==> a[i] == ' ') && (b == [] || !IsSpace(b[0]))
    ensures SpaceRun(a + b) == |a|
  {
    if a != [] {
      assert (a + b)[1..] == a[1..] + b;
      SpaceRunWhole(a[1..], b);
    }
  }

  /** A size with no spaces before its unit matches at its start. */
  lemma MatchAtStartTight(ds: string, unit: char, b: char)
    requires |ds| > 0 && AllDigits(ds) && IsUnitLetter(unit) && b in "bB"
    ensures MatchAt(ds + [unit, b], 0) == Some((ds, unit))
  {
    MatchAtStart(ds, 0, unit, b);
    assert ds + seq(0, _ => ' ') + [unit, b] == ds + [unit, b];
  }

  /** "2mb" is two megabytes, as the source's tests expect. */
  lemma ParseTwoMegabytes()
    ensures ParseFileSize(Str("2mb")) == Ok(Int(2097152))
  {
    MatchAtStartTight("2", 'm', 'b');
    assert "2" + ['m', 'b'] == "2mb";
    assert !IsDigit("2mb"[1]);
    assert DigitsValue("2") == 2;
  }

  /**
   * An upper-case unit matches the case-insensitive pattern but has no
   * index in "kmg", so "1Kb" raises where the source's tests expect 1024.
   */
  lemma ParseUpperCaseKilobyte()
    ensures ParseFileSize(Str("1Kb")) == Err(RuntimeFault)
  {
    MatchAtStartTight("1", 'K', 'b');
    assert "1" + ['K', 'b'] == "1Kb";
    assert !IsDigit("1Kb"[1]);
  }

  /** Likewise "2GB" raises where the source's tests expect 2147483648. */
  lemma ParseUpperCaseGigabytes()
    ensures ParseFileSize(Str("2GB")) == Err(RuntimeFault)
  {
    MatchAtStartTight("2", 'G', 'B');
    assert "2" + ['G', 'B'] == "2GB";
    assert !IsDigit("2GB"[1]);
  }

  /** A String that is neither digits nor a size raises FFeaturesConfigInvalid, where the source's tests expect it back. */
  lemma ParseNotASize()
    ensures ParseFileSize(Str("foo")) == Err(ConfigInvalid)
  {
    var f := "foo";
    assert !IsDigit(f[0]);
    assert MatchAt(f, 0).None?;
    assert MatchAt(f, 1).None? && MatchAt(f, 2).None? && MatchAt(f, 3).None?;
  }

  /** The index of a unit letter once lower-cased, as the tests of parse_file_size expect of "Kb" and "GB". */
  function FoldedUnitIndex(c: char): (i: nat)
    requires IsUnitLetter(c)
    ensures i < 3 && (c in "kmg" ==> UnitIndex(c) == Some(i))
  {
    if c in "kK" then 0 else if c in "mM" then 1 else 2
  }

  /**
   * parse_file_size as its tests mean it: the same answers wherever the
   * source answers, and a size for every String the case-insensitive
   * pattern accepts, whatever the case of its unit.
   */
  function ParseFileSizeIntended(size: Value): (r: Result<Value, Error>)
    ensures ParseFileSize(size).Ok? ==> r == ParseFileSize(size)
    ensures ParseFileSize(size).Err? && r.Ok? ==> size.Str? && ParseFileSize(size) == Err(RuntimeFault)
    ensures size.Str? && FirstMatch(size.s, 0).Some? ==> r.Ok?
    ensures r.Ok? && size.Str? ==> r.value.Int? && r.value.i >= 0
  {
    if size.Str? && !AllDigits(size.s) && FirstMatch(size.s, 0).Some? then
      var (digits, unit) := FirstMatch(size.s, 0).value;
      Ok(Int(DigitsValue(digits) * Pow(1024, FoldedUnitIndex(unit) + 1)))
    else ParseFileSize(size)
  }

  /** n written out, any spaces, then a unit letter and a b in either case, is n times 1024, 1024^2 or 1024^3. */
  lemma ParseFileSizeIntendedUnits(n: nat, spaces: nat, unit: char, b: char)
    requires IsUnitLetter(unit) && b in "bB"
    ensures ParseFileSizeIntended(Str(NatDecimal(n) + seq(spaces, _ => ' ') + [unit, b]))
            == Ok(Int(n * Pow(1024, FoldedUnitIndex(unit) + 1)))
  {
    var s := NatDecimal(n) + seq(spaces, _ => ' ') + [unit, b];
    MatchAtStart(NatDecimal(n), spaces, unit, b);
    assert !IsDigit(s[|s| - 1]);
    DecimalRoundTrip(n);
  }

  /** The intended reading gives "1Kb" the 1024 the source's tests expect. */
  lemma ParseUpperCaseKilobyteIntended()
    ensures ParseFileSizeIntended(Str("1Kb")) == Ok(Int(1024))
  {
    MatchAtStartTight("1", 'K', 'b');
    assert "1" + ['K', 'b'] == "1Kb";
    assert !IsDigit("1Kb"[1]);
    assert DigitsValue("1") == 1;
  }

  /** And "2GB" the 2147483648 they expect. */
  lemma ParseUpperCaseGigabytesIntended()
    ensures ParseFileSizeIntended(Str("2GB")) == Ok(Int(2147483648))
  {
    MatchAtStartTight("2", 'G', 'B');
    assert "2" + ['G', 'B'] == "2GB";
    assert !IsDigit("2GB"[1]);
    assert DigitsValue("2") == 2;
    assert Pow(1024, 3) == 1073741824;
  }

  // ---------------------------------------------------------------------------
  // The variables

  /**
   * init_from_file: the file must exist and hold a Hash; the variables are
   * its `common` section (or none), updated by the environment's section
   * when there is one.
   */
  function FileVars(fileExists: bool, environments: Value, environment: Value): (r: Result<AList<Value, Value>, Error>)
    ensures !fileExists ==> r == Err(ConfigFileNotExists)
    ensures fileExists && !environments.Hash? ==> r == Err(ConfigInvalid)
    ensures fileExists && environments.Hash? ==>
      var common := Lookup(environments.entries, Str("common"));
      var section := Lookup(environments.entries, environment);
      (r.Ok? <==> (!Truthy(common) || common.Hash?) && (!Truthy(section) || section.Hash?))
    ensures fileExists && environments.Hash? && r.Ok? ==>
      var common := Lookup(environments.entries, Str("common"));
      !Truthy(Lookup(environments.entries, environment)) ==> r.value == if Truthy(common) then common.entries else []
  {
    if !fileExists then Err(ConfigFileNotExists)
    else if !environments.Hash? then Err(ConfigInvalid)
    else
      var common := Lookup(environments.entries, Str("common"));
      var base := if Truthy(common) then common else Hash([]);
      var section := Lookup(environments.entries, environment);
      if !base.Hash? then Err(RuntimeFault)
      else if !Truthy(section) then Ok(base.entries)
      else if !section.Hash? then Err(RuntimeFault)
      else Ok(Update(base.entries, section.entries))
  }

  /**
   * A variable read from a file is the environment section's, when that
   * section has it, and otherwise the common section's.
   */
  lemma FileVarsGet(environments: AList<Value, Value>, environment: Value, k: Value)
    requires Lookup(environments, environment).Hash? ==> UniqueKeys(Lookup(environments, environment).entries)
    requires FileVars(true, Hash(environments), environment).Ok?
    ensures var common := Lookup(environments, Str("common"));
      var section := Lookup(environments, environment);
      Get(FileVars(true, Hash(environments), environment).value, k)
      == if section.Hash? && HasKey(section.entries, k) then Get(section.entries, k)
         else if common.Hash? then Get(common.entries, k)
         else None
  {
    var common := Lookup(environments, Str("common"));
    var section := Lookup(environments, environment);
    var base := if Truthy(common) then common.entries else [];
    if section.Hash? {
      UpdateGet(base, section.entries, k);
      LastValueGet(section.entries, k);
    }
  }

  /** In a Hash with unique keys, the last entry for a key is its only one. */
  lemma {:induction false} LastValueGet(m: AList<Value, Value>, k: Value)
    requires UniqueKeys(m)
    ensures LastValue(m, k) == Get(m, k)
  {
    if m != [] {
      var pre := m[..|m| - 1];
      LastKeyFresh(m);
      LastValueGet(pre, k);
      assert m == pre + [m[|m| - 1]];
      GetAppend(pre, m[|m| - 1], k);
    }
  }

  /**
   * The rewrite of the cache limit: when there is a cache section, its
   * limit becomes its size in bytes as parse_file_size reads it, in place;
   * everything else is kept.
   */
  function RewriteCacheLimit(vars: AList<Value, Value>): (r: Result<AList<Value, Value>, Error>)
    ensures !Truthy(Lookup(vars, Str("cache"))) ==> r == Ok(vars)
    ensures r.Ok? ==> Keys(r.value) == Keys(vars)
    ensures r.Ok? ==> forall k :: k != Str("cache") ==> Get(r.value, k) == Get(vars, k)
    ensures r.Ok? && Truthy(Lookup(vars, Str("cache"))) ==>
      Lookup(vars, Str("cache")).Hash? && Lookup(r.value, Str("cache")).Hash?
      && Ok(Lookup(Lookup(r.value, Str("cache")).entries, Str("limit")))
         == ParseFileSize(Lookup(Lookup(vars, Str("cache")).entries, Str("limit")))
    ensures var cache := Lookup(vars, Str("cache"));
      Truthy(cache) ==> (r.Ok? <==> cache.Hash? && ParseFileSize(Lookup(cache.entries, Str("limit"))).Ok?)
    ensures var cache := Lookup(vars, Str("cache"));
      r.Ok? && Truthy(cache) ==>
        Keys(Lookup(r.value, Str("cache")).entries)
        == if HasKey(cache.entries, Str("limit")) then Keys(cache.entries) else Keys(cache.entries) + [Str("limit")]
    ensures var cache := Lookup(vars, Str("cache"));
      r.Ok? && Truthy(cache) ==>
        forall k :: k != Str("limit") ==> Get(Lookup(r.value, Str("cache")).entries, k) == Get(cache.entries, k)
  {
    var cache := Lookup(vars, Str("cache"));
    if !Truthy(cache) then Ok(vars)
    else if !cache.Hash? then Err(RuntimeFault)
    else
      match ParseFileSize(Lookup(cache.entries, Str("limit")))
      case Err(e) => Err(e)
      case Ok(limit) =>
        var rewritten := Put(cache.entries, Str("limit"), limit);
        var result := Put(vars, Str("cache"), Hash(rewritten));
        assert Lookup(result, Str("cache")) == Hash(rewritten);
        Ok(result)
  }

  /**
   * A cache section whose limit is "2mb" keeps enable and dir, in their
   * places, and gets the limit in bytes.
   */
  lemma {:induction false} RewriteCacheExample(enable: Value, dir: Value)
    ensures RewriteCacheLimit([(Str("cache"), Hash([(Str("enable"), enable), (Str("dir"), dir), (Str("limit"), Str("2mb"))]))])
            == Ok([(Str("cache"), Hash([(Str("enable"), enable), (Str("dir"), dir), (Str("limit"), Int(2097152))]))])
  {
    var entries := [(Str("enable"), enable), (Str("dir"), dir), (Str("limit"), Str("2mb"))];
    var limited := [(Str("enable"), enable), (Str("dir"), dir), (Str("limit"), Int(2097152))];
    CacheEntriesExample(enable, dir);
    ParseTwoMegabytes();
    var vars := [(Str("cache"), Hash(entries))];
    assert Lookup(vars, Str("cache")) == Hash(entries);
    assert ParseFileSize(Lookup(entries, Str("limit"))) == Ok(Int(2097152));
    assert Put(vars, Str("cache"), Hash(limited)) == [(Str("cache"), Hash(limited))];
    assert RewriteCacheLimit(vars) == Ok(Put(vars, Str("cache"), Hash(Put(entries, Str("limit"), Int(2097152)))));
  }

  /** The limit of that cache section reads "2mb", and setting it keeps enable and dir in front. */
  lemma {:induction false} CacheEntriesExample(enable: Value, dir: Value)
    ensures Lookup([(Str("enable"), enable), (Str("dir"), dir), (Str("limit"), Str("2mb"))], Str("limit")) == Str("2mb")
    ensures Put([(Str("enable"), enable), (Str("dir"), dir), (Str("limit"), Str("2mb"))], Str("limit"), Int(2097152))
            == [(Str("enable"), enable), (Str("dir"), dir), (Str("limit"), Int(2097152))]
  {
    var entries := [(Str("enable"), enable), (Str("dir"), dir), (Str("limit"), Str("2mb"))];
    var limited := [(Str("enable"), enable), (Str("dir"), dir), (Str("limit"), Int(2097152))];
    assert "enable"[0] != "limit"[0] && "dir"[0] != "limit"[0];
    assert Str("enable") != Str("limit") && Str("dir") != Str("limit");
    assert entries[1..][1..] == [(Str("limit"), Str("2mb"))];
    assert Get(entries[1..][1..], Str("limit")) == Some(Str("2mb"));
    assert Get(entries[1..], Str("limit")) == Some(Str("2mb"));
    assert Put(entries[1..][1..], Str("limit"), Int(2097152)) == [(Str("limit"), Int(2097152))];
    assert Put(entries[1..], Str("limit"), Int(2097152)) == limited[1..];
  }

  /** The variables a configuration starts with, from a file path or a Hash. */
  function InitialVars(source: Value, environment: Value, fileExists: bool, loaded: Value): (r: Result<AList<Value, Value>, Error>)
    ensures !source.Str? && !source.Hash? ==> r == Err(ConfigInvalid)
  {
    var vars := if source.Str? then FileVars(fileExists, loaded, environment)
                else if source.Hash? then Ok(source.entries)
                else Err(ConfigInvalid);
    match vars
    case Err(e) => Err(e)
    case Ok(vs) => RewriteCacheLimit(vs)
  }

  class Config {
    var vars: AList<Value, Value>

    constructor (vars: AList<Value, Value>)
      ensures this.vars == vars
    {
      this.vars := vars;
    }

    /**
     * Config.new(source, environment): a String source is a file path whose
     * existence and YAML content are `fileExists` and `loaded`; a Hash
     * source is copied; anything else raises FFeaturesConfigInvalid.
     */
    static method New(source: Value, environment: Value, fileExists: bool, loaded: Value) returns (r: Result<Config, Error>)
      ensures r.Ok? <==> InitialVars(source, environment, fileExists, loaded).Ok?
      ensures r.Ok? ==> fresh(r.value) && r.value.vars == InitialVars(source, environment, fileExists, loaded).value
      ensures r.Err? ==> r.error == InitialVars(source, environment, fileExists, loaded).error
    {
      var vars: AList<Value, Value>;
      if source.Str? {
        var fromFile := FileVars(fileExists, loaded, environment);
        if fromFile.Err? {
          return Err(fromFile.error);
        }
        vars := fromFile.value;
      } else if source.Hash? {
        vars := source.entries;
      } else {
        return Err(ConfigInvalid);
      }
      var rewritten := RewriteCacheLimit(vars);
      if rewritten.Err? {
        return Err(rewritten.error);
      }
      var config := new Config(rewritten.value);
      r := Ok(config);
    }

    /** config[name]: the variable named by name.to_s, so a Symbol and a String name the same one. */
    function Get(name: Value): (v: Value)
      reads this
      ensures name.Str? ==> v == Lookup(vars, name)
      ensures name.Sym? ==> v == Lookup(vars, Str(name.name))
      ensures !HasKey(vars, Str(ToS(name))) ==> v == Nil
    {
      Lookup(vars, Str(ToS(name)))
    }
  }
}
