/**
 * `POST` of src/app/api/admin/staff/addstaff/route.js: like the administrator's create route,
 * but the allow-list starts with the address the request comes from (the office network the
 * member is created on), and the entries the administrator lists are added after it, each
 * only if it is not there yet.
 */
module AddStaffRoute {
  import opened Wrappers
  import opened JsRuntime
  import opened IpUtils
  import opened StaffModel
  import opened AdminStaffRoute

  datatype AddStaffRequest = AddStaffRequest(fields: CreateStaffRequest, headers: Request)

  datatype AddStaffResponse =
    | AddFieldsRequired                            // 400
    | AddEmailExists                               // 400
    | AddStaffCreated(data: StaffView, creatorIp: string)  // 201, the message names the address

  predicate NoDuplicates(s: seq<string>) {
    forall i, j :: 0 <= i < j < |s| ==> s[i] != s[j]
  }

  /** `acc` after `xs.forEach(ip => { if (!acc.includes(ip)) acc.push(ip) })`. */
  function AppendNew(acc: seq<string>, xs: seq<string>): seq<string> {
    if xs == [] then acc
    else
      var p := AppendNew(acc, xs[..|xs| - 1]);
      if xs[|xs| - 1] in p then p else p + [xs[|xs| - 1]]
  }

  /** The first occurrence of every element, in the order of those occurrences. */
  function FirstOccurrences(s: seq<string>): seq<string> {
    if s == [] then []
    else
      var init := s[..|s| - 1];
      FirstOccurrences(init) + (if s[|s| - 1] in init then [] else [s[|s| - 1]])
  }

  /** The allow-list the route stores for a member created from address `creatorIp`. */
  method BuildAllowList(creatorIp: string, allowedIps: Option<string>) returns (ips: seq<string>)
    ensures ips == AppendNew(if creatorIp != "" then [creatorIp] else [], ParseAllowedIps(allowedIps))
  {
    // the creator's address is pushed first, when there is one
    ips := if creatorIp != "" then [creatorIp] else [];
    ghost var start := ips;
    var additional: seq<string> := [];
    if Truthy(allowedIps) && Trim(allowedIps.value) != "" {
      additional := DropEmpty(TrimEach(Split(allowedIps.value, ',')));
    }
    var i := 0;
    while i < |additional|
      invariant 0 <= i <= |additional|
      invariant ips == AppendNew(start, additional[..i])
    {
      AppendNewStep(start, additional, i);
      if additional[i] !in ips {
        ips := ips + [additional[i]];
      }
      i := i + 1;
    }
    assert additional[..i] == additional;
  }

  lemma AppendNewStep(acc: seq<string>, xs: seq<string>, i: nat)
    requires i < |xs|
    ensures var p := AppendNew(acc, xs[..i]);
      AppendNew(acc, xs[..i + 1]) == if xs[i] in p then p else p + [xs[i]]
  {
    assert xs[..i + 1][..i] == xs[..i];
  }

  /** `POST`: validation, the e-mail lookup, then the creation with the built allow-list. */
  method Post(dir: StaffDirectory, req: AddStaffRequest) returns (resp: AddStaffResponse)
    requires dir.Valid()
    modifies dir
    ensures dir.Valid()
    ensures !HasRequired(req.fields) ==> resp == AddFieldsRequired && dir.members == old(dir.members)
    ensures HasRequired(req.fields) && IndexOfEmail(old(dir.members), req.fields.email.value).Some? ==>
      resp == AddEmailExists && dir.members == old(dir.members)
    ensures HasRequired(req.fields) && IndexOfEmail(old(dir.members), req.fields.email.value).None? ==>
      var ip := GetClientIp(req.headers);
      var m := StaffMember(old(dir.nextId), req.fields.name.value, req.fields.email.value,
        req.fields.password.value, DEFAULT_ROLE,
        AppendNew(if ip != "" then [ip] else [], ParseAllowedIps(req.fields.allowedIps)));
      dir.members == old(dir.members) + [m] && resp == AddStaffCreated(WithoutPassword(m), ip)
  {
    var f := req.fields;
    if !HasRequired(f) {
      return AddFieldsRequired;
    }
    if IndexOfEmail(dir.members, f.email.value).Some? {
      return AddEmailExists;
    }
    var creatorIp := GetClientIp(req.headers);
    var ips := BuildAllowList(creatorIp, f.allowedIps);
    var r := dir.Create(f.name.value, f.email.value, f.password.value, ips);
    resp := AddStaffCreated(WithoutPassword(r.value), creatorIp);
  }

  // ---------------------------------------------------------------------------------------
  // Lemmas
  // ---------------------------------------------------------------------------------------

  /** Appending the new entries to a list is taking first occurrences of the whole. */
  lemma {:induction false} AppendNewIsFirstOccurrences(acc: seq<string>, xs: seq<string>)
    requires NoDuplicates(acc)
    ensures AppendNew(acc, xs) == FirstOccurrences(acc + xs)
  {
    if xs == [] {
      assert acc + xs == acc;
      FirstOccurrencesOfDistinct(acc);
    } else {
      var init, last := xs[..|xs| - 1], xs[|xs| - 1];
      AppendNewIsFirstOccurrences(acc, init);
      FirstOccurrencesMembers(acc + init);
      var s := acc + xs;
      assert s[..|s| - 1] == acc + init && s[|s| - 1] == last;
    }
  }

  lemma {:induction false} FirstOccurrencesOfDistinct(s: seq<string>)
    requires NoDuplicates(s)
    ensures FirstOccurrences(s) == s
  {
    if s != [] {
      var init := s[..|s| - 1];
      assert NoDuplicates(init);
      FirstOccurrencesOfDistinct(init);
      assert s[|s| - 1] !in init;
      assert init + [s[|s| - 1]] == s;
    }
  }

  lemma {:induction false} FirstOccurrencesMembers(s: seq<string>)
    ensures forall e :: e in FirstOccurrences(s) <==> e in s
  {
    if s != [] {
      var init := s[..|s| - 1];
      FirstOccurrencesMembers(init);
      assert init + [s[|s| - 1]] == s;
    }
  }

  lemma {:induction false} FirstOccurrencesDistinct(s: seq<string>)
    ensures NoDuplicates(FirstOccurrences(s))
  {
    if s != [] {
      var init := s[..|s| - 1];
      FirstOccurrencesDistinct(init);
      FirstOccurrencesMembers(init);
    }
  }

  /** First occurrences keep the list they start with at their front. */
  lemma {:induction false} FirstOccurrencesPrefix(a: seq<string>, b: seq<string>)
    ensures FirstOccurrences(a) <= FirstOccurrences(a + b)
    decreases |b|
  {
    if b != [] {
      var s := a + b;
      var b' := b[..|b| - 1];
      assert s[..|s| - 1] == a + b';
      FirstOccurrencesPrefix(a, b');
    } else {
      assert a + b == a;
    }
  }

  /** The allow-list has no duplicates, starts with the creator's address when there is
      one, holds exactly that address and the parsed entries, and keeps every entry at its
      first occurrence. */
  lemma AllowListMeaning(creatorIp: string, allowedIps: Option<string>)
    ensures var start := if creatorIp != "" then [creatorIp] else [];
      var r := AppendNew(start, ParseAllowedIps(allowedIps));
      && r == FirstOccurrences(start + ParseAllowedIps(allowedIps))
      && NoDuplicates(r)
      && (creatorIp != "" ==> |r| >= 1 && r[0] == creatorIp)
      && (forall e :: e in r <==> (e == creatorIp && creatorIp != "") || e in ParseAllowedIps(allowedIps))
  {
    var start := if creatorIp != "" then [creatorIp] else [];
    var xs := ParseAllowedIps(allowedIps);
    AppendNewIsFirstOccurrences(start, xs);
    FirstOccurrencesDistinct(start + xs);
    FirstOccurrencesMembers(start + xs);
    if creatorIp != "" {
      FirstOccurrencesPrefix(start, xs);
      FirstOccurrencesOfDistinct(start);
    }
  }

  /** The administrator naming the office address again does not list it twice. */
  lemma CreatorListedOnce(creatorIp: string)
    requires creatorIp != "" && ',' !in creatorIp
    requires !IsSpace(creatorIp[0]) && !IsSpace(creatorIp[|creatorIp| - 1])
    ensures AppendNew([creatorIp], ParseAllowedIps(Some(creatorIp))) == [creatorIp]
  {
    ParseRoundTrip([creatorIp]);
    assert Join([creatorIp], ',') == creatorIp;
    assert [creatorIp][..0] == [];
  }
}
