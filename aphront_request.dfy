/**
 * AphrontRequest: the host and path of one HTTP request and its request
 * data, read through getters that fall back to a default.
 */
module AphrontRequestModel {
  import opened Php

  /** A request parameter: PHP's null, a scalar, or an array of parameters. */
  datatype Value = Null | Scalar(text: string) | Array(entries: map<string, Value>)

  /** `AphrontRequest::TYPE_AJAX`: the parameter that marks an Ajax request. */
  const TypeAjax: string := "__ajax__"

  class AphrontRequest {
    var host: string
    var path: string
    /** The request data, once `setRequestData` has been called. */
    var requestData: Option<map<string, Value>>

    /** `new AphrontRequest($host, $path)`: no request data yet; `getHost` and `getPath` give back the two arguments. */
    constructor (host: string, path: string)
      ensures GetHost() == host && GetPath() == path && requestData == None
    {
      this.host := host;
      this.path := path;
      requestData := None;
    }

    /** `setRequestData($request_data)`: replaces the whole data map and returns the request itself. */
    method SetRequestData(data: map<string, Value>) returns (r: AphrontRequest)
      modifies this`requestData
      ensures r == this && requestData == Some(data)
      ensures GetHost() == old(GetHost()) && GetPath() == old(GetPath())
    {
      requestData := Some(data);
      r := this;
    }

    function GetPath(): string
      reads this
    {
      path
    }

    function GetHost(): string
      reads this
    {
      host
    }

    /** `isset($this->requestData[$name])`: the key is present and its value is not null. */
    predicate IsSet(name: string)
      reads this
    {
      requestData.Some? && name in requestData.value && requestData.value[name] != Null
    }

    /** `getInt($name, $default)`: the `(int)` cast, given as `toInt`, of a set value; the default otherwise. */
    function GetInt(name: string, default: Option<int>, toInt: Value -> int): (r: Option<int>)
      reads this
      ensures IsSet(name) ==> r == Some(toInt(requestData.value[name]))
      ensures !IsSet(name) ==> r == default
    {
      if IsSet(name) then Some(toInt(requestData.value[name])) else default
    }

    /** `getStr($name, $default)`: the `(string)` cast, given as `toStr`, of a set value; the default otherwise. */
    function GetStr(name: string, default: Option<string>, toStr: Value -> string): (r: Option<string>)
      reads this
      ensures IsSet(name) ==> r == Some(toStr(requestData.value[name]))
      ensures !IsSet(name) ==> r == default
    {
      if IsSet(name) then Some(toStr(requestData.value[name])) else default
    }

    /** `getArr($name, $default)`: a set value that is an array; the default otherwise. */
    function GetArr(name: string, default: Option<map<string, Value>>): (r: Option<map<string, Value>>)
      reads this
      ensures IsSet(name) && requestData.value[name].Array? ==> r == Some(requestData.value[name].entries)
      ensures !(IsSet(name) && requestData.value[name].Array?) ==> r == default
    {
      if IsSet(name) && requestData.value[name].Array? then Some(requestData.value[name].entries) else default
    }

    /**
     * `getExists($name)`: `array_key_exists`, true for any present key,
     * null values included; false while no data is set.
     */
    function GetExists(name: string): (r: bool)
      reads this
      ensures r <==> requestData.Some? && name in requestData.value
    {
      requestData.Some? && name in requestData.value
    }

    /** `isAjax()`: the Ajax marker is present, whatever its value. */
    function IsAjax(): (r: bool)
      reads this
      ensures r <==> GetExists(TypeAjax)
      ensures r <==> requestData.Some? && "__ajax__" in requestData.value
    {
      GetExists(TypeAjax)
    }
  }

  /**
   * A key present with a null value exists for `getExists`, yet every
   * typed getter answers with its default, as for a missing key.
   */
  lemma NullIsNotSet(req: AphrontRequest, name: string, d: Option<int>, s: Option<string>, a: Option<map<string, Value>>,
                     toInt: Value -> int, toStr: Value -> string)
    requires req.requestData.Some? && name in req.requestData.value && req.requestData.value[name] == Null
    ensures req.GetExists(name)
    ensures req.GetInt(name, d, toInt) == d && req.GetStr(name, s, toStr) == s && req.GetArr(name, a) == a
  {
  }

  /** A typed getter that does not answer with its default found the key present. */
  lemma TypedGettersNeedKey(req: AphrontRequest, name: string, d: Option<int>, s: Option<string>, a: Option<map<string, Value>>,
                            toInt: Value -> int, toStr: Value -> string)
    ensures req.GetInt(name, d, toInt) != d ==> req.GetExists(name) && req.IsSet(name)
    ensures req.GetStr(name, s, toStr) != s ==> req.GetExists(name) && req.IsSet(name)
    ensures req.GetArr(name, a) != a ==> req.GetExists(name) && req.requestData.value[name].Array?
  {
  }

  /** `getInt` and `getStr` answer with a value for the same keys, and `getArr` only for some of them. */
  lemma GettersAgree(req: AphrontRequest, name: string, toInt: Value -> int, toStr: Value -> string)
    ensures req.GetInt(name, None, toInt).Some? <==> req.GetStr(name, None, toStr).Some?
    ensures req.GetArr(name, None).Some? ==> req.GetStr(name, None, toStr).Some?
  {
  }

  /** Before `setRequestData` nothing exists, the request is no Ajax request and every getter gives its default. */
  lemma NoDataYet(req: AphrontRequest, name: string, d: Option<int>, s: Option<string>, a: Option<map<string, Value>>,
                  toInt: Value -> int, toStr: Value -> string)
    requires req.requestData == None
    ensures !req.GetExists(name) && !req.IsAjax()
    ensures req.GetInt(name, d, toInt) == d && req.GetStr(name, s, toStr) == s && req.GetArr(name, a) == a
  {
  }
}
