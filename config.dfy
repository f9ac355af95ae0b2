/** Felix's configuration object: entries are looked up by lower-cased
    section and option name and consumed as they are read, so that the
    entries left over can be reported as unexpected. Reading the file and
    resolving host names are outside the model: the parsed sections and a
    resolver are parameters. */
module FelixConfig {
  import opened Wrappers
  import opened StrUtil

  type Sections = map<string, map<string, string>>

  /** The entries of `parsed` not yet read. */
  ghost function Without(parsed: Sections, consumed: set<(string, string)>): Sections
  {
    map s | s in parsed :: map k | k in parsed[s] && (s, k) !in consumed :: parsed[s][k]
  }

  /** The message `warn_unused_cfg` prints for a left-over entry. */
  function UnexpectedMessage(key: string, value: string): string
  {
    "Got unexpected item " + key + "=" + value
  }

  class Config {
    var items: Sections
    ghost var parsed: Sections
    ghost var consumed: set<(string, string)>

    /** `_items` is the parsed file less every entry read so far. */
    ghost predicate Valid()
      reads this
    {
      items == Without(parsed, consumed)
    }

    /** `read_cfg_file`, from the sections the parser produced. */
    constructor (sections: Sections)
      ensures Valid() && parsed == sections && consumed == {} && items == sections
    {
      items := sections;
      parsed := sections;
      consumed := {};
      forall s | s in sections ensures Without(sections, {})[s] == sections[s] {
      }
      assert Without(sections, {}) == sections;
    }

    /** `get_cfg_entry`: a missing section raises, even with a default; a
        present option is returned and consumed; an absent one (never there,
        or already read) gives the default, or raises when there is none. */
    method GetCfgEntry(section: string, name: string, default: Option<string>) returns (r: Result<string, string>)
      requires Valid()
      modifies this
      ensures Valid() && parsed == old(parsed)
      ensures Lower(section) !in parsed ==>
        r == Err("Section " + Lower(section) + " missing from config file") && consumed == old(consumed)
      ensures Lower(section) in parsed && Lower(name) in parsed[Lower(section)] && (Lower(section), Lower(name)) !in old(consumed) ==>
        r == Ok(parsed[Lower(section)][Lower(name)]) && consumed == old(consumed) + {(Lower(section), Lower(name))}
      ensures Lower(section) in parsed && !(Lower(name) in parsed[Lower(section)] && (Lower(section), Lower(name)) !in old(consumed)) ==>
        consumed == old(consumed) &&
        r == if default.None? then Err("Variable " + Lower(name) + " is not defined in section " + Lower(section)) else Ok(default.value)
    {
      var n := Lower(name);
      var s := Lower(section);
      if s !in items {
        return Err("Section " + s + " missing from config file");
      }
      var item := items[s];
      if n in item {
        r := Ok(item[n]);
        consumed := consumed + {(s, n)};
        items := items[s := item - {n}];
        ghost var before := old(consumed);
        forall s' | s' in parsed ensures items[s'] == Without(parsed, consumed)[s'] {
          if s' != s {
            assert Without(parsed, consumed)[s'] == Without(parsed, before)[s'];
          }
        }
      } else if default.None? {
        r := Err("Variable " + n + " is not defined in section " + s);
      } else {
        r := Ok(default.value);
      }
    }

    /** `warn_unused_cfg`: one message for each entry never read. */
    method WarnUnusedCfg() returns (messages: set<string>)
      ensures messages == set s, k | s in items && k in items[s] :: UnexpectedMessage(k, items[s][k])
    {
      messages := {};
      var sections := items.Keys;
      ghost var doneSections: set<string> := {};
      while sections != {}
        invariant sections + doneSections == items.Keys && sections !! doneSections
        invariant messages == set s, k | s in doneSections && k in items[s] :: UnexpectedMessage(k, items[s][k])
        decreases sections
      {
        var s :| s in sections;
        var keys := items[s].Keys;
        ghost var doneKeys: set<string> := {};
        ghost var before := messages;
        while keys != {}
          invariant keys + doneKeys == items[s].Keys && keys !! doneKeys
          invariant messages == before + set k | k in doneKeys :: UnexpectedMessage(k, items[s][k])
          decreases keys
        {
          var k :| k in keys;
          messages := messages + {UnexpectedMessage(k, items[s][k])};
          keys := keys - {k};
          doneKeys := doneKeys + {k};
        }
        sections := sections - {s};
        doneSections := doneSections + {s};
      }
    }
  }

  /** A read entry is not reported; an entry never read is. */
  lemma UnusedAreUnread(parsed: Sections, consumed: set<(string, string)>, s: string, k: string)
    requires s in parsed && k in parsed[s]
    ensures var left := Without(parsed, consumed);
      (s in left && k in left[s]) <==> (s, k) !in consumed
  {
  }

  /** The log level names, case-insensitively (`loglevels`). */
  datatype LogLevel = Debug | Info | Warning | Error | Critical

  const LOG_LEVELS: map<string, LogLevel> :=
    map["debug" := Debug, "info" := Info, "warn" := Warning, "warning" := Warning,
        "err" := Error, "error" := Error, "crit" := Critical, "critical" := Critical]

  /** `loglevels[name.lower()]`; None where Python raises KeyError. */
  function LogLevelFor(name: string): (r: Option<LogLevel>)
    ensures r.Some? <==> Lower(name) in LOG_LEVELS
  {
    var key := Lower(name);
    if key in LOG_LEVELS then Some(LOG_LEVELS[key]) else None
  }

  /** A name whose lower-case form is a key of the table gives that key's level. */
  lemma LevelOfKey(name: string, key: string)
    requires |name| == |key| && forall i :: 0 <= i < |name| ==> LowerChar(name[i]) == key[i]
    requires key in LOG_LEVELS
    ensures LogLevelFor(name) == Some(LOG_LEVELS[key])
  {
    LowerIs(name, key);
  }

  /** `warn` and `warning` name the same level, in any case. */
  lemma WarnSynonyms()
    ensures LogLevelFor("WARN") == Some(Warning) && LogLevelFor("warning") == Some(Warning)
  {
    LevelOfKey("WARN", "warn");
    LevelOfKey("warning", "warning");
  }

  /** `err` and `error` name the same level, in any case. */
  lemma ErrorSynonyms()
    ensures LogLevelFor("Err") == Some(Error) && LogLevelFor("ERROR") == Some(Error)
  {
    LevelOfKey("Err", "err");
    LevelOfKey("ERROR", "error");
  }

  /** `crit` and `critical` name the same level, in any case. */
  lemma CriticalSynonyms()
    ensures LogLevelFor("crit") == Some(Critical) && LogLevelFor("Critical") == Some(Critical)
  {
    LevelOfKey("crit", "crit");
    LevelOfKey("Critical", "critical");
  }

  /** A name outside the table fails. */
  lemma UnknownLevel()
    ensures LogLevelFor("verbose") == None
  {
    LowerIs("verbose", "verbose");
  }

  /** `INT_REGEX.match`, `^[0-9]+$`: Python's `$` also matches just before a
      final newline. */
  predicate IntRegexMatch(s: string)
  {
    (s != [] && AllDigits(s)) || (|s| >= 2 && s[|s| - 1] == '\n' && AllDigits(s[..|s| - 1]))
  }

  /** What `validate_cfg` makes of MetadataAddr and MetadataPort: "none" in
      any case turns metadata off; otherwise the address must resolve and
      the port must be digits. */
  function ValidateMetadata(addr: string, port: string, resolve: string -> Option<string>): (r: Result<(Option<string>, Option<string>), string>)
    ensures Lower(addr) == "none" ==> r == Ok((None, None))
    ensures Lower(addr) != "none" && r.Ok? ==>
      resolve(addr).Some? && r.value == (resolve(addr), Some(port)) && IntRegexMatch(port)
    ensures Lower(addr) != "none" && (resolve(addr).None? || !IntRegexMatch(port)) ==> r.Err?
  {
    if Lower(addr) == "none" then Ok((None, None))
    else match resolve(addr)
      case None => Err("Invalid MetadataAddr value : " + addr)
      case Some(ip) =>
        if !IntRegexMatch(port) then Err("Invalid MetadataPort value : " + port)
        else Ok((Some(ip), Some(port)))
  }
}
