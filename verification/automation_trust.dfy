/**
 * The trust policy of the repository automation (`automation_trust.py`):
 * an allow-list of GitHub logins, given as a JSON array or as comma-separated
 * text, that always includes the repository owner, and the decisions built
 * on it for actors and pull requests.
 *
 * Python's `None` for a login or for the raw list is modelled as "", which
 * every function here treats exactly as the original treats `None`: both are
 * falsy and are tested before any string method is called.
 */
module AutomationTrust {
  import opened Wrappers
  import opened Strings
  import opened Seqs

  /** The Python values that `json.loads` and the `is_cross_repository` argument can be. */
  datatype PyValue =
    | PyNone
    | PyBool(b: bool)
    | PyInt(i: int)
    | PyStr(s: string)
    | PyList(items: seq<PyValue>)
    | PyOther(truthy: bool)   // any other object (a float, a dict), known only by its truthiness

  /** Python's `bool(value)`. */
  predicate Truthy(v: PyValue) {
    match v
    case PyNone => false
    case PyBool(b) => b
    case PyInt(i) => i != 0
    case PyStr(s) => s != ""
    case PyList(items) => items != []
    case PyOther(t) => t
  }

  /** The normal form of a login: stripped and lower-cased. */
  function Normalize(login: string): string {
    Lower(Trim(login))
  }

  predicate IsNormal(key: string) {
    Normalize(key) == key
  }

  lemma NormalizeIsNormal(login: string)
    ensures IsNormal(Normalize(login))
  {
    KeyIsNormal(login);
  }

  // ---------------------------------------------------------------- parse_trusted_actors

  /** The owner's contribution: the owner, normalized, when a non-empty owner is given. */
  function OwnerSet(repoOwner: string): set<string> {
    if repoOwner != "" then {Normalize(repoOwner)} else {}
  }

  /** The name an element of a JSON array contributes: a non-blank string, normalized; anything else none. */
  function ItemName(v: PyValue): set<string> {
    if v.PyStr? && Trim(v.s) != "" then {Normalize(v.s)} else {}
  }

  /** The name a comma-separated piece contributes: a non-blank piece, normalized. */
  function PieceName(p: string): set<string> {
    if Trim(p) != "" then {Normalize(p)} else {}
  }

  /** The names the raw value lists: a JSON array if it parses as one, comma-separated text otherwise. */
  function ListedNames(rawValue: string, loads: string -> Option<PyValue>): set<string> {
    var raw := Trim(rawValue);
    if raw == "" then {}
    else
      match loads(raw)
      case Some(PyList(items)) => Collect(items, ItemName)
      case _ => Collect(Split(raw, ','), PieceName)
  }

  /**
   * A name is listed exactly when some non-blank string element of the JSON
   * array, or, when the text is not a JSON array, some non-blank comma
   * separated piece, normalizes to it.
   */
  lemma ListedNamesMembers(rawValue: string, loads: string -> Option<PyValue>, x: string)
    requires Trim(rawValue) != ""
    ensures var raw := Trim(rawValue);
      x in ListedNames(rawValue, loads) <==>
        match loads(raw)
        case Some(PyList(items)) => exists v :: v in items && v.PyStr? && Trim(v.s) != "" && x == Normalize(v.s)
        case _ => exists p :: p in Split(raw, ',') && Trim(p) != "" && x == Normalize(p)
  {
    var raw := Trim(rawValue);
    match loads(raw)
    case Some(PyList(items)) => CollectMembers(items, ItemName, x);
    case _ => CollectMembers(Split(raw, ','), PieceName, x);
  }

  lemma ListedNamesAreNormal(rawValue: string, loads: string -> Option<PyValue>)
    ensures forall x :: x in ListedNames(rawValue, loads) ==> IsNormal(x)
  {
    forall x | x in ListedNames(rawValue, loads) ensures IsNormal(x) {
      ListedNamesMembers(rawValue, loads, x);
      var raw := Trim(rawValue);
      match loads(raw)
      case Some(PyList(items)) =>
        var v :| v in items && v.PyStr? && Trim(v.s) != "" && x == Normalize(v.s);
        NormalizeIsNormal(v.s);
      case _ =>
        var p :| p in Split(raw, ',') && Trim(p) != "" && x == Normalize(p);
        NormalizeIsNormal(p);
    }
  }

  /** What `parse_trusted_actors` returns. */
  function TrustedActors(rawValue: string, repoOwner: string, loads: string -> Option<PyValue>): (r: set<string>)
    ensures repoOwner != "" ==> Normalize(repoOwner) in r
    ensures Trim(rawValue) == "" ==> r == OwnerSet(repoOwner)
    ensures forall x :: x in r ==> IsNormal(x)
  {
    ListedNamesAreNormal(rawValue, loads);
    NormalizeIsNormal(repoOwner);
    OwnerSet(repoOwner) + ListedNames(rawValue, loads)
  }

  /** `parse_trusted_actors`, with `json.loads` as a parameter (`None` for a decode error). */
  method ParseTrustedActors(rawValue: string, repoOwner: string, loads: string -> Option<PyValue>) returns (trusted: set<string>)
    ensures trusted == TrustedActors(rawValue, repoOwner, loads)
  {
    trusted := {};
    if repoOwner != "" {
      trusted := trusted + {Lower(Trim(repoOwner))};
    }
    if rawValue == "" {
      return;
    }
    var raw := Trim(rawValue);
    if raw == "" {
      return;
    }
    var parsed := loads(raw);
    if parsed.Some? && parsed.value.PyList? {
      trusted := AddListActors(trusted, parsed.value.items);
      return;
    }
    trusted := AddCommaActors(trusted, Split(raw, ','));
  }

  /** The loop over a parsed JSON array: add every non-blank string element, stripped and lower-cased. */
  method AddListActors(trusted0: set<string>, items: seq<PyValue>) returns (trusted: set<string>)
    ensures trusted == trusted0 + Collect(items, ItemName)
  {
    trusted := trusted0;
    for i := 0 to |items|
      invariant trusted == trusted0 + Collect(items[..i], ItemName)
    {
      assert items[..i + 1][..i] == items[..i];
      var actor := items[i];
      if actor.PyStr? && Trim(actor.s) != "" {
        trusted := trusted + {Lower(Trim(actor.s))};
      }
    }
    assert items[..|items|] == items;
  }

  /** The loop over the comma-separated pieces: add every non-blank piece, stripped and lower-cased. */
  method AddCommaActors(trusted0: set<string>, pieces: seq<string>) returns (trusted: set<string>)
    ensures trusted == trusted0 + Collect(pieces, PieceName)
  {
    trusted := trusted0;
    for i := 0 to |pieces|
      invariant trusted == trusted0 + Collect(pieces[..i], PieceName)
    {
      assert pieces[..i + 1][..i] == pieces[..i];
      var actor := Trim(pieces[i]);
      if actor != "" {
        trusted := trusted + {Lower(actor)};
      }
    }
    assert pieces[..|pieces|] == pieces;
  }

  // ---------------------------------------------------------------- decisions

  /** `is_trusted_actor`: a non-empty login whose normal form is on the list. */
  predicate IsTrustedActor(actorLogin: string, repoOwner: string, rawValue: string, loads: string -> Option<PyValue>) {
    actorLogin != "" && Normalize(actorLogin) in TrustedActors(rawValue, repoOwner, loads)
  }

  /** The owner is trusted under any spelling of its login, whatever the list says. */
  lemma OwnerIsTrusted(actorLogin: string, repoOwner: string, rawValue: string, loads: string -> Option<PyValue>)
    requires actorLogin != "" && repoOwner != ""
    requires EqualsIgnoringCase(Trim(actorLogin), Trim(repoOwner))
    ensures IsTrustedActor(actorLogin, repoOwner, rawValue, loads)
  {
    LowerEqualIffIgnoringCase(Trim(actorLogin), Trim(repoOwner));
  }

  /** With a blank list, the owner is the only trusted actor. */
  lemma BlankListTrustsOnlyOwner(actorLogin: string, repoOwner: string, rawValue: string, loads: string -> Option<PyValue>)
    requires Trim(rawValue) == ""
    ensures IsTrustedActor(actorLogin, repoOwner, rawValue, loads) <==>
      actorLogin != "" && repoOwner != "" && EqualsIgnoringCase(Trim(actorLogin), Trim(repoOwner))
  {
    LowerEqualIffIgnoringCase(Trim(actorLogin), Trim(repoOwner));
  }

  /** `_as_bool`: booleans as they are, strings by their text, anything else by its truthiness. */
  function AsBool(value: PyValue): (r: bool)
    ensures value.PyBool? ==> r == value.b
    ensures !value.PyBool? && !value.PyStr? ==> r == Truthy(value)
  {
    match value
    case PyBool(b) => b
    case PyStr(s) => Lower(Trim(s)) == "true"
    case _ => Truthy(value)
  }

  lemma LowerTrue()
    ensures Lower("true") == "true"
  {
    var r := Lower("true");
    assert r[0] == 't' && r[1] == 'r' && r[2] == 'u' && r[3] == 'e';
  }

  /** A string counts as true exactly when, stripped, it spells "true" in any case. */
  lemma AsBoolOfString(s: string)
    ensures AsBool(PyStr(s)) <==> EqualsIgnoringCase(Trim(s), "true")
  {
    LowerTrue();
    LowerEqualIffIgnoringCase(Trim(s), "true");
  }

  /** `is_trusted_pr`: a same-repository pull request, from the owner's own head, by a trusted author. */
  predicate IsTrustedPr(authorLogin: string, headOwnerLogin: string, isCrossRepository: PyValue,
                        repoOwner: string, rawValue: string, loads: string -> Option<PyValue>)
  {
    if AsBool(isCrossRepository) then false
    else if repoOwner == "" || headOwnerLogin == "" then false
    else if Normalize(headOwnerLogin) != Normalize(repoOwner) then false
    else IsTrustedActor(authorLogin, repoOwner, rawValue, loads)
  }

  /** The four conditions, each necessary, together sufficient; the owners are compared ignoring case. */
  lemma IsTrustedPrMeans(authorLogin: string, headOwnerLogin: string, isCrossRepository: PyValue,
                         repoOwner: string, rawValue: string, loads: string -> Option<PyValue>)
    ensures IsTrustedPr(authorLogin, headOwnerLogin, isCrossRepository, repoOwner, rawValue, loads) <==>
      && !AsBool(isCrossRepository)
      && repoOwner != "" && headOwnerLogin != ""
      && EqualsIgnoringCase(Trim(headOwnerLogin), Trim(repoOwner))
      && IsTrustedActor(authorLogin, repoOwner, rawValue, loads)
  {
    LowerEqualIffIgnoringCase(Trim(headOwnerLogin), Trim(repoOwner));
  }

  /** A pull request from a fork is never trusted, not even when the owner wrote it. */
  lemma ForkPrNeverTrusted(authorLogin: string, headOwnerLogin: string, isCross: string,
                           repoOwner: string, rawValue: string, loads: string -> Option<PyValue>)
    requires EqualsIgnoringCase(Trim(isCross), "true")
    ensures !IsTrustedPr(authorLogin, headOwnerLogin, PyStr(isCross), repoOwner, rawValue, loads)
  {
    AsBoolOfString(isCross);
  }
}
