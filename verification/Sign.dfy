/** `aiotMqttSign` of `aiot_mqtt_sign.c`. */
module Sign {
  import opened Words
  import opened Padding
  import opened Memory
  import opened CStrings
  import opened SignSpec
  import Hex
  import Hmac
  import HmacSpec

  /** A zeroed buffer into which text has been copied, and in which the closing NUL still fits. */
  ghost predicate Holds(dst: array<byte>, text: seq<byte>)
    reads dst
  {
    |text| < dst.Length && IsText(text) && dst[..] == text + Zeros(dst.Length - |text|)
  }

  /** memcpy(dst + strlen(dst), s, strlen(s)) */
  method Append(dst: array<byte>, s: seq<byte>, ghost text: seq<byte>)
    requires Holds(dst, text) && IsText(s) && |text| + |s| < dst.Length
    modifies dst
    ensures Holds(dst, text + s)
  {
    StrLenIs(dst[..], text);
    Store(dst, StrLen(dst[..]), s);
  }

  /** The parameter checks. */
  predicate Refused(productKey: array?<byte>, deviceName: array?<byte>, deviceSecret: array?<byte>,
                    clientId: array?<byte>, username: array?<byte>, password: array?<byte>)
    reads if productKey == null then {} else {productKey}
    reads if deviceName == null then {} else {deviceName}
    reads if deviceSecret == null then {} else {deviceSecret}
  {
    || productKey == null || deviceName == null || deviceSecret == null
    || clientId == null || username == null || password == null
    || StrLen(productKey[..]) > PRODUCTKEY_MAXLEN || StrLen(deviceName[..]) > DEVICENAME_MAXLEN
    || StrLen(deviceSecret[..]) > DEVICESECRET_MAXLEN
  }

  /** The password: the hex form of the HMAC of the string to sign, keyed with the device secret. */
  function Password(deviceName: seq<byte>, productKey: seq<byte>, secret: seq<byte>): (p: seq<byte>)
    requires |deviceName| <= DEVICENAME_MAXLEN && |productKey| <= PRODUCTKEY_MAXLEN
    requires |secret| <= DEVICESECRET_MAXLEN
    ensures |p| == 64
  {
    Hex.Encode(HmacSpec.Hmac(secret, MacSrc(deviceName, productKey)))
  }

  method BuildDeviceId(dn: seq<byte>, pk: seq<byte>) returns (deviceId: array<byte>)
    requires IsText(dn) && IsText(pk) && |dn| <= DEVICENAME_MAXLEN && |pk| <= PRODUCTKEY_MAXLEN
    ensures fresh(deviceId) && deviceId.Length == 54
    ensures Holds(deviceId, DeviceId(dn, pk))
  {
    deviceId := new byte[PRODUCTKEY_MAXLEN + DEVICENAME_MAXLEN + 2](_ => 0);
    Store(deviceId, 0, dn);
    Append(deviceId, Ascii("&"), dn);
    Append(deviceId, pk, dn + Ascii("&"));
  }

  method BuildMacSrc(dn: seq<byte>, pk: seq<byte>, deviceId: seq<byte>) returns (macSrc: array<byte>)
    requires IsText(dn) && IsText(pk) && |dn| <= DEVICENAME_MAXLEN && |pk| <= PRODUCTKEY_MAXLEN
    requires deviceId == DeviceId(dn, pk)
    ensures fresh(macSrc) && macSrc.Length == SIGN_SOURCE_MAXLEN
    ensures Holds(macSrc, MacSrc(dn, pk))
  {
    macSrc := new byte[SIGN_SOURCE_MAXLEN](_ => 0);
    AppendFirst(macSrc, deviceId);
    ghost var t := Ascii("clientId") + deviceId + Ascii("deviceName");
    AppendRest(macSrc, dn, pk, t);
    assert t + (NamedPair(dn, pk) + SignTail()) == MacSrc(dn, pk);
  }

  /** The first three lines of the string to sign. */
  method AppendFirst(macSrc: array<byte>, deviceId: seq<byte>)
    requires macSrc[..] == Zeros(macSrc.Length) && IsText(deviceId) && |deviceId| + 18 < macSrc.Length
    modifies macSrc
    ensures Holds(macSrc, Ascii("clientId") + deviceId + Ascii("deviceName"))
  {
    Store(macSrc, 0, Ascii("clientId"));
    Append(macSrc, deviceId, Ascii("clientId"));
    Append(macSrc, Ascii("deviceName"), Ascii("clientId") + deviceId);
  }

  /** The last five lines of the string to sign. */
  method AppendRest(macSrc: array<byte>, dn: seq<byte>, pk: seq<byte>, ghost t: seq<byte>)
    requires Holds(macSrc, t) && IsText(dn) && IsText(pk) && |t| + |dn| + |pk| + 32 < macSrc.Length
    modifies macSrc
    ensures Holds(macSrc, t + (NamedPair(dn, pk) + SignTail()))
  {
    Append(macSrc, dn, t);
    Append(macSrc, Ascii("productKey"), t + dn);
    Append(macSrc, pk, t + dn + Ascii("productKey"));
    assert t + dn + Ascii("productKey") + pk == t + NamedPair(dn, pk);
    Append(macSrc, Ascii("timestamp"), t + NamedPair(dn, pk));
    Append(macSrc, Timestamp(), t + NamedPair(dn, pk) + Ascii("timestamp"));
    assert t + NamedPair(dn, pk) + Ascii("timestamp") + Timestamp() == t + (NamedPair(dn, pk) + SignTail());
  }

  /** Text and its closing NUL, at the start of an output buffer. */
  method PutText(out: array<byte>, s: seq<byte>)
    requires |s| < out.Length
    modifies out
    ensures out[..] == Splice(old(out[..]), 0, s + [0])
  {
    SpliceAppend(out[..], 0, s, [0]);
    Store(out, 0, s);
    Store(out, |s|, [0]);
  }

  method AiotMqttSign(productKey: array?<byte>, deviceName: array?<byte>, deviceSecret: array?<byte>,
                      clientId: array?<byte>, username: array?<byte>, password: array?<byte>)
    returns (res: int)
    requires productKey != null ==> IsCString(productKey)
    requires deviceName != null ==> IsCString(deviceName)
    requires deviceSecret != null ==> IsCString(deviceSecret)
    requires clientId != null ==> clientId.Length == CLIENTID_MAXLEN
    requires username != null ==> username.Length == USERNAME_MAXLEN
    requires password != null ==> password.Length == PASSWORD_MAXLEN
    // no output buffer is also an input
    requires clientId == null || (clientId != productKey && clientId != deviceName && clientId != deviceSecret)
    requires username == null || (username != productKey && username != deviceName && username != deviceSecret)
    requires password == null || (password != productKey && password != deviceName && password != deviceSecret)
    modifies if clientId == null then {} else {clientId}
    modifies if username == null then {} else {username}
    modifies if password == null then {} else {password}
    ensures res == if old(Refused(productKey, deviceName, deviceSecret, clientId, username, password)) then -1 else 0
    ensures res == -1 && clientId != null ==> clientId[..] == old(clientId[..])
    ensures res == -1 && username != null ==> username[..] == old(username[..])
    ensures res == -1 && password != null ==> password[..] == old(password[..])
    ensures res == 0 ==>
              var dn, pk, ds := old(CString(deviceName[..])), old(CString(productKey[..])), old(CString(deviceSecret[..]));
              && clientId[..] == Splice(old(clientId[..]), 0, ClientId(dn, pk) + [0])
              && username[..] == Splice(old(username[..]), 0, DeviceId(dn, pk) + [0])
              && password[..] == Password(dn, pk, ds) + [0]
              && password[..64] == Hex.Encode(HmacSpec.Hmac(ds, MacSrc(dn, pk))) && password[64] == 0
    ensures res == 0 <==>
              && productKey != null && deviceName != null && deviceSecret != null
              && clientId != null && username != null && password != null
              && old(StrLen(productKey[..])) <= 20 && old(StrLen(deviceName[..])) <= 32 && old(StrLen(deviceSecret[..])) <= 64
  {
    if productKey == null || deviceName == null || deviceSecret == null
       || clientId == null || username == null || password == null {
      return -1;
    }
    if StrLen(productKey[..]) > PRODUCTKEY_MAXLEN || StrLen(deviceName[..]) > DEVICENAME_MAXLEN
       || StrLen(deviceSecret[..]) > DEVICESECRET_MAXLEN {
      return -1;
    }
    var dn, pk := CString(deviceName[..]), CString(productKey[..]);
    var deviceId := BuildDeviceId(dn, pk);
    StrLenIs(deviceId[..], DeviceId(dn, pk));
    var id := CString(deviceId[..]);
    assert id == DeviceId(dn, pk);
    PutText(clientId, id + KvTail());
    PutText(username, id);
    var macSrc := BuildMacSrc(dn, pk, id);
    SignInto(macSrc, MacSrc(dn, pk), deviceSecret, password);
    res := 0;
  }

  /** The HMAC of the string to sign, with the device secret as key. */
  method MacOf(macSrc: array<byte>, ghost src: seq<byte>, deviceSecret: array<byte>) returns (macRes: array<byte>)
    requires Holds(macSrc, src) && macSrc.Length == SIGN_SOURCE_MAXLEN
    requires IsCString(deviceSecret) && StrLen(deviceSecret[..]) <= DEVICESECRET_MAXLEN
    ensures fresh(macRes) && macRes.Length == 32
    ensures macRes[..] == HmacSpec.Hmac(CString(deviceSecret[..]), src)
  {
    StrLenIs(macSrc[..], src);
    var n, k := StrLen(macSrc[..]), StrLen(deviceSecret[..]);
    assert macSrc[..n] == src && deviceSecret[..k] == CString(deviceSecret[..]);
    macRes := new byte[32](_ => 0);
    ghost var o := macRes[..];
    Hmac.HmacSha256(macSrc, n as uint32, deviceSecret, k as uint32, macRes);
    ghost var d := HmacSpec.Hmac(CString(deviceSecret[..]), src);
    assert macRes[..] == Splice(o, 0, d);
    SpliceAll(o, d);
  }

  /** The end of aiotMqttSign: HMAC, then hex. */
  method SignInto(macSrc: array<byte>, ghost src: seq<byte>, deviceSecret: array<byte>, password: array<byte>)
    requires Holds(macSrc, src) && macSrc.Length == SIGN_SOURCE_MAXLEN
    requires IsCString(deviceSecret) && StrLen(deviceSecret[..]) <= DEVICESECRET_MAXLEN
    requires password.Length == PASSWORD_MAXLEN && password != macSrc && password != deviceSecret
    modifies password
    ensures password[..] == Hex.Encode(HmacSpec.Hmac(CString(deviceSecret[..]), src)) + [0]
  {
    var macRes := MacOf(macSrc, src, deviceSecret);
    Memset(password, 0, 0, PASSWORD_MAXLEN);
    Hex.Hex2Str(macRes, 32, password);
  }
}
