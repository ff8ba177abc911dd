/**
 * The two notifications sent after a quote is stored: the e-mail to `ADMIN_EMAIL`
 * and the SMS through the SENS gateway, with the message its request signature covers.
 * Delivery, HMAC-SHA256 and base64 are outside the model; what is modelled is what
 * would be sent.
 */
module Notify {
  import opened Wrappers
  import opened Strings
  import opened Config
  import opened Quotes

  const SubjectPrefix: string := "견적 요청: "

  /** The label of each mail line; line k shows column k of the INSERT. */
  const EmailLabels: seq<string> :=
    ["행사명: ", "행사일: ", "장소: ", "운영기간: ", "장비: ", "규격: ", "콘텐츠: ",
     "전력: ", "요청사항: ", "담당자: ", "회사/기관: ", "연락처: ", "이메일: ", "접수시간: "]

  /** `value || "-"`. */
  function OrDash(v: string): (shown: string)
    ensures shown != []
  {
    if v == [] then "-" else v
  }

  /**
   * The 14 lines of the mail body. Each shows the value the table stores in the same
   * column, with "-" for an optional field left empty; the last shows the stamp as is.
   */
  function EmailLines(p: Payload, createdAt: string): (lines: seq<string>)
    requires Complete(p)
    ensures |lines| == |EmailLabels| == 14
  {
    [EmailLabels[0] + p["eventName"],
     EmailLabels[1] + p["eventDate"],
     EmailLabels[2] + p["eventPlace"],
     EmailLabels[3] + OrDash(FieldOr(p, "eventDuration")),
     EmailLabels[4] + OrDash(FieldOr(p, "ledType")),
     EmailLabels[5] + OrDash(FieldOr(p, "ledSize")),
     EmailLabels[6] + OrDash(FieldOr(p, "ledContent")),
     EmailLabels[7] + OrDash(FieldOr(p, "power")),
     EmailLabels[8] + OrDash(FieldOr(p, "extra")),
     EmailLabels[9] + p["contactName"],
     EmailLabels[10] + OrDash(FieldOr(p, "contactCompany")),
     EmailLabels[11] + p["contactPhone"],
     EmailLabels[12] + p["contactEmail"],
     EmailLabels[13] + createdAt]
  }

  /**
   * Each mail line shows the value the table stores in the same column, with "-" for an
   * optional field left empty; the last line shows the stamp as it is.
   */
  lemma EmailShowsRow(p: Payload, createdAt: string)
    requires Complete(p)
    ensures var lines, row := EmailLines(p, createdAt), Row(p, createdAt);
            && (forall k :: 0 <= k < 13 ==> lines[k] == EmailLabels[k] + OrDash(row[k]))
            && lines[13] == EmailLabels[13] + createdAt
  {
    var lines, row := EmailLines(p, createdAt), Row(p, createdAt);
    forall k | 0 <= k < 13 ensures lines[k] == EmailLabels[k] + OrDash(row[k]) {
      if k < 3 || k == 9 || k == 11 || k == 12 {
        RequiredLineShown(p, createdAt, k);
      } else {
        OptionalLineShown(p, createdAt, k);
      }
    }
  }

  /** A required field's line shows the stored value, which is never empty. */
  lemma RequiredLineShown(p: Payload, createdAt: string, k: nat)
    requires Complete(p) && (k < 3 || k == 9 || k == 11 || k == 12)
    ensures EmailLines(p, createdAt)[k] == EmailLabels[k] + Row(p, createdAt)[k]
    ensures Row(p, createdAt)[k] != []
  {
  }

  /** An optional field's line shows the stored value, or "-" when it is empty. */
  lemma OptionalLineShown(p: Payload, createdAt: string, k: nat)
    requires Complete(p) && (3 <= k < 9 || k == 10)
    ensures EmailLines(p, createdAt)[k] == EmailLabels[k] + OrDash(Row(p, createdAt)[k])
  {
    // one case per optional column, so that each index into the literals is a constant
    if k == 3 {} else if k == 4 {} else if k == 5 {} else if k == 6 {}
    else if k == 7 {} else if k == 8 {} else {}
  }

  /** The mail body: the lines joined with "\n". */
  function EmailText(p: Payload, createdAt: string): (text: string)
    requires Complete(p)
  {
    Join(EmailLines(p, createdAt), '\n')
  }

  /** No line break in any stored value: each mail line then stays one line. */
  predicate SingleLine(values: seq<string>) {
    forall k :: 0 <= k < |values| ==> '\n' !in values[k]
  }

  /** No label holds a line break. */
  lemma LabelsSingleLine()
    ensures SingleLine(EmailLabels)
  {
  }

  /** Splitting the body at line breaks gives back the 14 lines, one per column. */
  lemma EmailTextLines(p: Payload, createdAt: string)
    requires Complete(p) && SingleLine(Row(p, createdAt))
    ensures Split(EmailText(p, createdAt), '\n') == EmailLines(p, createdAt)
  {
    var lines := EmailLines(p, createdAt);
    var row := Row(p, createdAt);
    EmailShowsRow(p, createdAt);
    LabelsSingleLine();
    forall k | 0 <= k < |lines| ensures '\n' !in lines[k] {
      assert '\n' !in row[k];
      assert '\n' !in EmailLabels[k];
      if k < 13 {
        assert lines[k] == EmailLabels[k] + OrDash(row[k]);
      } else {
        assert lines[k] == EmailLabels[k] + row[k];
      }
    }
    SplitJoin(lines, '\n');
  }

  /** A message for `sendMail`. */
  datatype Mail = Mail(from: string, to: string, subject: string, text: string)

  /** `sendEmail`: nothing unless the SMTP settings and `ADMIN_EMAIL` are all set. */
  function EmailFor(env: Env, p: Payload, createdAt: string): (m: Option<Mail>)
    requires Complete(p)
    ensures m.Some? <==> EmailConfigured(env)
    ensures m.Some? ==> m.value.from == env.smtpFrom.value && m.value.to == env.adminEmail.value
    ensures m.Some? ==> m.value.subject == SubjectPrefix + p["eventName"]
    ensures m.Some? ==> m.value.text == EmailText(p, createdAt)
  {
    if !EmailConfigured(env) then None
    else Some(Mail(env.smtpFrom.value, env.adminEmail.value, SubjectPrefix + p["eventName"], EmailText(p, createdAt)))
  }

  /** The SMS text: the prefix, then event name, date and contact separated by " / ". */
  function SmsContent(p: Payload): (content: string)
    requires Complete(p)
  {
    SubjectPrefix + p["eventName"] + " / " + p["eventDate"] + " / " + p["contactName"]
  }

  /**
   * The mail that is sent carries the row: when no stored value holds a line break,
   * its body splits back into the 14 lines, line k showing column k of the row.
   */
  lemma SentMailShowsRow(env: Env, p: Payload, createdAt: string)
    requires Complete(p) && EmailConfigured(env) && SingleLine(Row(p, createdAt))
    ensures var lines := Split(EmailFor(env, p, createdAt).value.text, '\n');
            && |lines| == 14
            && (forall k :: 0 <= k < 13 ==> lines[k] == EmailLabels[k] + OrDash(Row(p, createdAt)[k]))
            && lines[13] == EmailLabels[13] + createdAt
  {
    EmailTextLines(p, createdAt);
    EmailShowsRow(p, createdAt);
  }

  /** When none of the three values holds a '/', cutting the text at '/' recovers them. */
  lemma SmsContentFields(p: Payload)
    requires Complete(p)
    requires '/' !in p["eventName"] && '/' !in p["eventDate"] && '/' !in p["contactName"]
    ensures Split(SmsContent(p), '/') ==
              [SubjectPrefix + p["eventName"] + " ", " " + p["eventDate"] + " ", " " + p["contactName"]]
  {
    var a := SubjectPrefix + p["eventName"] + " ";
    var b := " " + p["eventDate"] + " ";
    var c := " " + p["contactName"];
    assert SmsContent(p) == a + ['/'] + (b + ['/'] + c);
    SplitCons(a, '/', b + ['/'] + c);
    SplitCons(b, '/', c);
    SplitNoSep(c, '/');
  }

  /** `/sms/v2/services/${SENS_SERVICE_ID}/messages`. */
  function SensPath(serviceId: string): (path: string) {
    "/sms/v2/services/" + serviceId + "/messages"
  }

  /** A service id without '/' is one whole segment of the path, so the path names it back. */
  lemma SensPathServiceId(serviceId: string)
    requires '/' !in serviceId
    ensures Split(SensPath(serviceId), '/') == ["", "sms", "v2", "services", serviceId, "messages"]
  {
    SensPathSegments(serviceId);
    SplitSegments([], "sms", "v2", "services", serviceId, "messages", '/');
  }

  /** Six separator-free segments joined by the separator split back into themselves. */
  lemma SplitSegments(a: string, b: string, c: string, d: string, e: string, f: string, sep: char)
    requires sep !in a && sep !in b && sep !in c && sep !in d && sep !in e && sep !in f
    ensures Split(a + [sep] + (b + [sep] + (c + [sep] + (d + [sep] + (e + [sep] + f)))), sep) == [a, b, c, d, e, f]
  {
    var def := d + [sep] + (e + [sep] + f);
    SplitTriple(d, e, f, sep);
    SplitCons(c, sep, def);
    SplitCons(b, sep, c + [sep] + def);
    SplitCons(a, sep, b + [sep] + (c + [sep] + def));
  }

  /** Three separator-free segments joined by the separator split back into themselves. */
  lemma SplitTriple(d: string, e: string, f: string, sep: char)
    requires sep !in d && sep !in e && sep !in f
    ensures Split(d + [sep] + (e + [sep] + f), sep) == [d, e, f]
  {
    SplitNoSep(f, sep);
    SplitCons(e, sep, f);
    SplitCons(d, sep, e + [sep] + f);
  }

  /** The fixed head of the path is its three segments with '/' around them. */
  lemma SensPathHead()
    ensures "/sms/v2/services/" == [] + ['/'] + ("sms" + ['/'] + ("v2" + ['/'] + ("services" + ['/'])))
  {
  }

  /** The path is its six segments with '/' between them. */
  lemma SensPathSegments(serviceId: string)
    ensures SensPath(serviceId) ==
              [] + ['/'] + ("sms" + ['/'] + ("v2" + ['/'] + ("services" + ['/'] + (serviceId + ['/'] + "messages"))))
  {
    SensPathHead();
    assert "/messages" == ['/'] + "messages";
  }

  /** A character absent from the service id and from the fixed parts is absent from the path. */
  lemma SensPathAvoids(serviceId: string, c: char)
    requires c !in serviceId && c != '/' && c !in "smsv2servicesmessages"
    ensures c !in SensPath(serviceId)
  {
    assert c !in "/sms/v2/services/" && c !in "/messages";
  }

  /** The string `makeSensSignature` signs: the HTTP method, a space, the URL, then timestamp and key on lines of their own. */
  function SignatureMessage(verb: string, url: string, timestamp: string, accessKey: string): (message: string) {
    verb + " " + url + "\n" + timestamp + "\n" + accessKey
  }

  /** No part holding a line break, the message splits back into its three lines. */
  lemma SignatureMessageParts(verb: string, url: string, timestamp: string, accessKey: string)
    requires '\n' !in verb && '\n' !in url && '\n' !in timestamp && '\n' !in accessKey
    ensures Split(SignatureMessage(verb, url, timestamp, accessKey), '\n') ==
              [verb + " " + url, timestamp, accessKey]
  {
    var first := verb + " " + url;
    assert '\n' !in first;
    assert SignatureMessage(verb, url, timestamp, accessKey) == first + ['\n'] + (timestamp + ['\n'] + accessKey);
    SplitCons(first, '\n', timestamp + ['\n'] + accessKey);
    SplitCons(timestamp, '\n', accessKey);
    SplitNoSep(accessKey, '\n');
  }

  /** The first line of the message splits at its one space into the method and the URL. */
  lemma SignatureRequestLine(verb: string, url: string)
    requires ' ' !in verb && ' ' !in url
    ensures Split(verb + " " + url, ' ') == [verb, url]
  {
    assert verb + " " + url == verb + [' '] + url;
    SplitCons(verb, ' ', url);
    SplitNoSep(url, ' ');
  }

  /** The SENS request `sendSms` sends: headers, signed string and body fields. */
  datatype SmsRequest = SmsRequest(
    path: string,
    timestamp: string,
    accessKey: string,
    signedMessage: string,
    from: string,
    to: string,
    content: string
  )

  /** `sendSms` at time `now` (`Date.now()`): nothing unless all five SENS settings are set. */
  function SmsFor(env: Env, p: Payload, now: nat): (r: Option<SmsRequest>)
    requires Complete(p)
    ensures r.Some? <==> SmsConfigured(env)
    ensures r.Some? ==> && r.value.path == SensPath(env.sensServiceId.value)
                        && r.value.timestamp == NatToDecimal(now)
                        && r.value.accessKey == env.sensAccessKey.value
                        && r.value.signedMessage == SignatureMessage("POST", r.value.path, r.value.timestamp, env.sensAccessKey.value)
    ensures r.Some? ==> && r.value.from == env.sensFromNumber.value && r.value.to == env.adminPhone.value
                        && r.value.content == SmsContent(p)
  {
    if !SmsConfigured(env) then None
    else
      var path := SensPath(env.sensServiceId.value);
      var timestamp := NatToDecimal(now);
      Some(SmsRequest(path, timestamp, env.sensAccessKey.value,
                      SignatureMessage("POST", path, timestamp, env.sensAccessKey.value),
                      env.sensFromNumber.value, env.adminPhone.value, SmsContent(p)))
  }

  /**
   * The SMS request is signed over its own path, timestamp and key: when neither the
   * service id nor the key holds a line break or a space, the signed string splits back
   * into "POST <path>", the timestamp header and the access-key header.
   */
  lemma SentSmsSigned(env: Env, p: Payload, now: nat)
    requires Complete(p) && SmsConfigured(env)
    requires '\n' !in env.sensServiceId.value && ' ' !in env.sensServiceId.value
    requires '\n' !in env.sensAccessKey.value
    ensures var req := SmsFor(env, p, now).value;
            && Split(req.signedMessage, '\n') == ["POST " + req.path, req.timestamp, req.accessKey]
            && Split("POST " + req.path, ' ') == ["POST", req.path]
  {
    var req := SmsFor(env, p, now).value;
    NatToDecimalDigits(now);
    assert '\n' !in req.timestamp by {
      forall k | 0 <= k < |req.timestamp| ensures req.timestamp[k] != '\n' {
        assert IsDigit(req.timestamp[k]);
      }
    }
    SignedPathParts(env.sensServiceId.value, req.timestamp, req.accessKey);
  }

  /** The signed string for a SENS path splits back into its request line, timestamp and key. */
  lemma SignedPathParts(serviceId: string, timestamp: string, key: string)
    requires '\n' !in serviceId && ' ' !in serviceId && '\n' !in timestamp && '\n' !in key
    ensures var path := SensPath(serviceId);
            && Split(SignatureMessage("POST", path, timestamp, key), '\n') == ["POST " + path, timestamp, key]
            && Split("POST " + path, ' ') == ["POST", path]
  {
    var path := SensPath(serviceId);
    SensPathAvoids(serviceId, '\n');
    SensPathAvoids(serviceId, ' ');
    SignatureMessageParts("POST", path, timestamp, key);
    SignatureRequestLine("POST", path);
    assert "POST" + " " + path == "POST " + path;
  }

  /** What reaches the outside world after a successful insert. */
  datatype Notification = Email(mail: Mail) | Sms(request: SmsRequest)

  /** Both sends are started (`Promise.all`): the configured ones, e-mail first. */
  function Dispatched(env: Env, p: Payload, createdAt: string, now: nat): (out: seq<Notification>)
    requires Complete(p)
    ensures |out| == (if EmailConfigured(env) then 1 else 0) + (if SmsConfigured(env) then 1 else 0)
    ensures forall k :: 0 <= k < |out| && out[k].Email? ==> Some(out[k].mail) == EmailFor(env, p, createdAt)
    ensures forall k :: 0 <= k < |out| && out[k].Sms? ==> Some(out[k].request) == SmsFor(env, p, now)
    ensures EmailConfigured(env) ==> out[0] == Email(EmailFor(env, p, createdAt).value)
    ensures SmsConfigured(env) ==> out[|out| - 1] == Sms(SmsFor(env, p, now).value)
  {
    var mail := EmailFor(env, p, createdAt);
    var sms := SmsFor(env, p, now);
    (if mail.Some? then [Email(mail.value)] else []) + (if sms.Some? then [Sms(sms.value)] else [])
  }
}
