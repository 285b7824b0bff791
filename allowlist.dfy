/** The domain allowlist: parsed once from the `ALLOWLIST` setting, then consulted for the
    host of every requested article. */
module Allowlist {
  import opened Wrappers
  import opened Text

  /** `s.split(sep)`: the pieces between separators, empty pieces included. */
  function Split(s: string, sep: char): (parts: seq<string>)
    ensures |parts| >= 1
    ensures forall i :: 0 <= i < |parts| ==> sep !in parts[i]
    decreases |s|
  {
    if s == [] then [[]]
    else
      var rest := Split(s[1..], sep);
      if s[0] == sep then [[]] + rest
      else
        assert sep !in [s[0]] + rest[0];
        [[s[0]] + rest[0]] + rest[1..]
  }

  /** `sep.join(parts)`. */
  function Join(parts: seq<string>, sep: char): string
    requires |parts| >= 1
  {
    if |parts| == 1 then parts[0] else parts[0] + [sep] + Join(parts[1..], sep)
  }

  /** Joining the pieces with the separator gives back the setting. */
  lemma {:induction false} JoinSplit(s: string, sep: char)
    ensures Join(Split(s, sep), sep) == s
    decreases |s|
  {
    if s != [] {
      var rest := Split(s[1..], sep);
      JoinSplit(s[1..], sep);
      if s[0] != sep && |rest| > 1 {
        assert [s[0]] + rest[0] + [sep] + Join(rest[1..], sep) == [s[0]] + Join(rest, sep);
      }
    }
  }

  /** Splitting a join of separator-free pieces gives back the pieces. */
  lemma {:induction false} SplitJoin(parts: seq<string>, sep: char)
    requires |parts| >= 1
    requires forall i :: 0 <= i < |parts| ==> sep !in parts[i]
    ensures Split(Join(parts, sep), sep) == parts
    decreases |parts|, |parts[0]|
  {
    var p := parts[0];
    if p != [] {
      var parts' := [p[1..]] + parts[1..];
      assert sep !in p[1..] by {
        forall x | x in p[1..] ensures x != sep { }
      }
      SplitJoin(parts', sep);
      var j := Join(parts, sep);
      if |parts| == 1 {
        assert j == [p[0]] + Join(parts', sep);
      } else {
        assert j == [p[0]] + Join(parts', sep);
      }
      assert j[0] == p[0] && j[1..] == Join(parts', sep);
      assert [p[0]] + p[1..] == p;
    } else if |parts| > 1 {
      SplitJoin(parts[1..], sep);
      var j := Join(parts, sep);
      assert j == [sep] + Join(parts[1..], sep);
      assert j[1..] == Join(parts[1..], sep);
    }
  }

  /** The allowlist: `set(filter(None, env.split(",")))`, the non-empty comma-separated
      entries, kept as they are written (no trimming, no lowercasing). */
  function ParseAllowlist(env: string): (allow: set<string>)
    ensures forall d :: d in allow <==> d != [] && d in Split(env, ',')
    ensures forall d :: d in allow ==> d != [] && ',' !in d
  {
    var parts := Split(env, ',');
    set i | 0 <= i < |parts| && parts[i] != [] :: parts[i]
  }

  /** Entries are kept exactly as written: a space after the comma and the letter case stay
      part of the entry. */
  lemma EntriesKeptAsWritten(env: string)
    requires env == "a.com, News.org"
    ensures ParseAllowlist(env) == {"a.com", " News.org"}
  {
    var parts := ["a.com", " News.org"];
    assert Join(parts, ',') == env;
    assert ',' !in parts[0] && ',' !in parts[1];
    SplitJoin(parts, ',');
  }

  /** The pieces of a setting made of commas alone are all empty. */
  lemma {:induction false} SplitOfSeparators(s: string, sep: char)
    requires forall i :: 0 <= i < |s| ==> s[i] == sep
    ensures forall i :: 0 <= i < |Split(s, sep)| ==> Split(s, sep)[i] == []
    decreases |s|
  {
    if s != [] {
      SplitOfSeparators(s[1..], sep);
    }
  }

  /** A character other than the separator ends up in one of the pieces. */
  lemma {:induction false} NonSeparatorInSomePiece(s: string, sep: char, i: nat)
    requires i < |s| && s[i] != sep
    ensures exists j :: 0 <= j < |Split(s, sep)| && s[i] in Split(s, sep)[j]
    decreases |s|
  {
    var parts := Split(s, sep);
    var rest := Split(s[1..], sep);
    if i == 0 {
      assert s[0] in parts[0];
    } else {
      NonSeparatorInSomePiece(s[1..], sep, i - 1);
      var j :| 0 <= j < |rest| && s[1..][i - 1] in rest[j];
      if s[0] == sep {
        assert parts[j + 1] == rest[j];
      } else if j == 0 {
        assert parts[0] == [s[0]] + rest[0];
      } else {
        assert parts[j] == rest[j];
      }
    }
  }

  /** The allowlist is empty, and so every host is allowed, exactly when the setting holds
      nothing but commas (the empty setting included). */
  lemma EmptyAllowlist(env: string)
    ensures ParseAllowlist(env) == {} <==> forall i :: 0 <= i < |env| ==> env[i] == ','
  {
    var parts := Split(env, ',');
    if forall i :: 0 <= i < |env| ==> env[i] == ',' {
      SplitOfSeparators(env, ',');
    } else {
      var i :| 0 <= i < |env| && env[i] != ',';
      NonSeparatorInSomePiece(env, ',', i);
      var j :| 0 <= j < |parts| && env[i] in parts[j];
      assert parts[j] in ParseAllowlist(env);
    }
  }

  /** The host as compared: lowercased, then one leading `www.` removed. */
  function NormalizeHost(host: string): (h: string)
    ensures forall i :: 0 <= i < |h| ==> !IsUpperAscii(h[i])
    ensures StartsWith(Lower(host), "www.") ==> h == Lower(host)[4..]
    ensures !StartsWith(Lower(host), "www.") ==> h == Lower(host)
  {
    var l := Lower(host);
    if StartsWith(l, "www.") then l[4..] else l
  }

  /** The host is the entry or a subdomain of it. */
  predicate MatchesEntry(h: string, d: string) {
    h == d || EndsWith(h, "." + d)
  }

  /** `is_allowed(url)`, given the host the URL parses to: `None` when the URL has no host
      or does not parse. */
  predicate IsAllowed(allow: set<string>, host: Option<string>) {
    if allow == {} then true
    else
      var h := NormalizeHost(if host.Some? then host.value else "");
      exists d :: d in allow && MatchesEntry(h, d)
  }

  /** With a non-empty allowlist, a URL without a host is refused. */
  lemma NoHostRejected(env: string)
    requires ParseAllowlist(env) != {}
    ensures !IsAllowed(ParseAllowlist(env), None)
    ensures !IsAllowed(ParseAllowlist(env), Some(""))
  {
    assert NormalizeHost("") == [];
  }

  /** Letter case in the host does not matter. */
  lemma CaseInsensitive(allow: set<string>, host: string)
    ensures IsAllowed(allow, Some(Lower(host))) == IsAllowed(allow, Some(host))
  {
    assert Lower(Lower(host)) == Lower(host);
    assert NormalizeHost(Lower(host)) == NormalizeHost(host);
  }

  /** A leading `www.`, in any letter case, does not matter, unless the rest of the host
      starts with `www.` again (only one is removed). */
  lemma WwwIgnored(allow: set<string>, host: string)
    requires !StartsWith(Lower(host), "www.")
    ensures IsAllowed(allow, Some("WWW." + host)) == IsAllowed(allow, Some(host))
    ensures IsAllowed(allow, Some("www." + host)) == IsAllowed(allow, Some(host))
  {
    assert Lower("WWW." + host) == "www." + Lower(host);
    assert Lower("www." + host) == "www." + Lower(host);
    assert ("www." + Lower(host))[4..] == Lower(host);
  }

  /** A host matches an entry when it is the entry or ends in a dot followed by it. */
  lemma SubdomainsMatch(sub: string, d: string)
    ensures MatchesEntry(sub + "." + d, d)
    ensures MatchesEntry(d, d)
  {
    assert (sub + "." + d)[|sub + "." + d| - |"." + d|..] == "." + d;
  }

  /** `news.example.com` matches `example.com`; `badexample.com` does not, for want of the
      dot. */
  lemma ExampleComEntry(d: string)
    requires d == "example.com"
    ensures MatchesEntry("news." + d, d)
    ensures !MatchesEntry("bad" + d, d)
  {
    SubdomainsMatch("news", d);
    assert "news." + d == "news" + "." + d;
    var b := "bad" + d;
    assert |b| == 14 && |"." + d| == 12;
    assert b[2..][0] == 'd' && ("." + d)[0] == '.';
  }

  /** Every character of the compared host is one the entry would need in lower case: an
      entry that holds an uppercase ASCII letter matches no host at all. */
  lemma UppercaseEntryNeverMatches(d: string, host: string, k: nat)
    requires k < |d| && IsUpperAscii(d[k])
    ensures !MatchesEntry(NormalizeHost(host), d)
  {
    var h := NormalizeHost(host);
    MissingCharNeverMatches(h, d, k);
  }

  /** A host that lacks one of the entry's characters matches neither the entry nor a
      subdomain of it. */
  lemma MissingCharNeverMatches(h: string, d: string, k: nat)
    requires k < |d| && d[k] !in h
    ensures !MatchesEntry(h, d)
  {
    assert d[k] in d;
    var t := "." + d;
    assert t[1 + k] == d[k];
    assert |t| <= |h| ==> h[|h| - |t| + 1 + k] in h;
  }

  /** An entry written with a space (for instance after a comma in the setting) matches no
      host that has no space. */
  lemma SpacedEntryNeverMatches(d: string, host: string, k: nat)
    requires k < |d| && d[k] == ' '
    requires ' ' !in host
    ensures !MatchesEntry(NormalizeHost(host), d)
  {
    var h := NormalizeHost(host);
    assert forall i :: 0 <= i < |h| ==> h[i] != ' ' by {
      forall i | 0 <= i < |h| ensures h[i] != ' ' {
        var l := Lower(host);
        var o := |l| - |h|;
        assert h[i] == l[o + i] == LowerAscii(host[o + i]);
        assert host[o + i] != ' ';
      }
    }
    MissingCharNeverMatches(h, d, k);
  }

  /** An entry that itself starts with `www.` does not match its own host, because the host
      loses its `www.` before comparison. */
  lemma WwwEntryMissesItsHost()
    ensures !MatchesEntry(NormalizeHost("www.example.com"), "www.example.com")
  {
    assert Lower("www.example.com") == "www.example.com";
    assert NormalizeHost("www.example.com") == "example.com";
  }
}
