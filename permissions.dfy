/**
 * The permission check of the capture demo (`PermissionUtils.java`). What
 * the platform answers for each permission (`checkSelfPermission` and
 * `shouldShowRequestPermissionRationale`) is part of the input, and so is
 * `Build.VERSION.SDK_INT`; the calls made on the platform are outputs.
 */
module Permissions {
  import opened Bytes

  /** `Build.VERSION_CODES.M`: runtime permissions exist from this SDK on. */
  const VersionCodesM: int := 23

  const CheckResultOk: int := 1
  const CheckResultRefuseOnce: int := 2
  const CheckResultFail: int := 3

  /** The request code passed to `requestPermissions`. */
  const RequestCode: int := 5

  /** A permission and what the platform currently answers about it. */
  datatype Permission = Permission(
    name: string,
    granted: bool,        // checkSelfPermission(...) == PERMISSION_GRANTED
    showRationale: bool)  // shouldShowRequestPermissionRationale(...)

  /** A call of `ActivityCompat.requestPermissions`. */
  datatype Request = Request(permissions: seq<string>, requestCode: int)

  predicate AllGranted(permissions: seq<Permission>) {
    forall i :: 0 <= i < |permissions| ==> permissions[i].granted
  }

  predicate AllShowRationale(permissions: seq<Permission>) {
    forall i :: 0 <= i < |permissions| ==> permissions[i].showRationale
  }

  function Names(permissions: seq<Permission>): (names: seq<string>)
    ensures |names| == |permissions|
    ensures forall i :: 0 <= i < |permissions| ==> names[i] == permissions[i].name
  {
    if permissions == [] then [] else [permissions[0].name] + Names(permissions[1..])
  }

  /** The position of the first permission not granted, or the length if there is none. */
  function FirstNotGranted(permissions: seq<Permission>): (k: nat)
    ensures k <= |permissions|
    ensures forall i :: 0 <= i < k ==> permissions[i].granted
    ensures k < |permissions| ==> !permissions[k].granted
  {
    if permissions == [] || !permissions[0].granted then 0
    else 1 + FirstNotGranted(permissions[1..])
  }

  /** The position of the first permission without a rationale, or the length if there is none. */
  function FirstWithoutRationale(permissions: seq<Permission>): (k: nat)
    ensures k <= |permissions|
    ensures forall i :: 0 <= i < k ==> permissions[i].showRationale
    ensures k < |permissions| ==> !permissions[k].showRationale
  {
    if permissions == [] || !permissions[0].showRationale then 0
    else 1 + FirstWithoutRationale(permissions[1..])
  }

  /** How many permissions a loop that stops at position `first` looks at. */
  function Looked(first: nat, length: nat): nat {
    if first < length then first + 1 else length
  }

  /**
   * `isPermissionGranted`: true below SDK 23, and otherwise exactly when
   * every permission is granted. Returns too the permissions it asked the
   * platform about: none below SDK 23, else those up to and including the
   * first one not granted.
   */
  method IsPermissionGranted(sdkInt: int, permissions: seq<Permission>)
    returns (granted: bool, checked: seq<string>)
    ensures granted <==> sdkInt < VersionCodesM || AllGranted(permissions)
    ensures checked == if sdkInt < VersionCodesM then []
      else Names(permissions)[..Looked(FirstNotGranted(permissions), |permissions|)]
  {
    checked := [];
    if sdkInt >= VersionCodesM {
      for i := 0 to |permissions|
        invariant |checked| == i && forall j :: 0 <= j < i ==> checked[j] == permissions[j].name
        invariant forall j :: 0 <= j < i ==> permissions[j].granted
      {
        checked := checked + [permissions[i].name];
        if !permissions[i].granted {
          FirstNotGrantedAt(permissions, i);
          NamesPrefix(permissions, checked);
          return false, checked;
        }
      }
      FirstNotGrantedAt(permissions, |permissions|);
      NamesPrefix(permissions, checked);
      return true, checked;
    } else {
      return true, checked;
    }
  }

  /**
   * `isRefuseOncePermission`: true exactly when the platform would show a
   * rationale for every permission. Returns too the permissions it asked
   * about: those up to and including the first without a rationale.
   */
  method IsRefuseOncePermission(permissions: seq<Permission>)
    returns (hasShowRequest: bool, asked: seq<string>)
    ensures hasShowRequest <==> AllShowRationale(permissions)
    ensures asked == Names(permissions)[..Looked(FirstWithoutRationale(permissions), |permissions|)]
  {
    hasShowRequest := true;
    asked := [];
    var i := 0;
    while i < |permissions|
      invariant 0 <= i <= |permissions|
      invariant hasShowRequest
      invariant |asked| == i && forall j :: 0 <= j < i ==> asked[j] == permissions[j].name
      invariant forall j :: 0 <= j < i ==> permissions[j].showRationale
    {
      asked := asked + [permissions[i].name];
      if !permissions[i].showRationale {
        hasShowRequest := false;
        FirstWithoutRationaleAt(permissions, i);
        break;
      }
      i := i + 1;
    }
    if hasShowRequest {
      FirstWithoutRationaleAt(permissions, i);
    }
    NamesPrefix(permissions, asked);
  }

  /** A list of names that agrees with the permissions in its length is a prefix of them. */
  lemma NamesPrefix(permissions: seq<Permission>, names: seq<string>)
    requires |names| <= |permissions|
    requires forall j :: 0 <= j < |names| ==> names[j] == permissions[j].name
    ensures names == Names(permissions)[..|names|]
  {
  }

  /** The first permission not granted is at `i` when the ones before it are granted and it is not. */
  lemma FirstNotGrantedAt(permissions: seq<Permission>, i: nat)
    requires i <= |permissions|
    requires forall j :: 0 <= j < i ==> permissions[j].granted
    requires i < |permissions| ==> !permissions[i].granted
    ensures FirstNotGranted(permissions) == i
    ensures i == |permissions| <==> AllGranted(permissions)
  {
  }

  /** The first permission without a rationale is at `i` when the ones before it show one and it does not. */
  lemma FirstWithoutRationaleAt(permissions: seq<Permission>, i: nat)
    requires i <= |permissions|
    requires forall j :: 0 <= j < i ==> permissions[j].showRationale
    requires i < |permissions| ==> !permissions[i].showRationale
    ensures FirstWithoutRationale(permissions) == i
    ensures i == |permissions| <==> AllShowRationale(permissions)
  {
  }

  /**
   * `checkPermission`: OK when everything is granted; otherwise a request
   * and FAIL on the first request, a request and REFUSE_ONCE when every
   * permission would show a rationale, and FAIL without a request when not.
   */
  method CheckPermission(sdkInt: int, permissions: seq<Permission>, isFirstRequest: bool)
    returns (resultCode: int, request: Option<Request>)
    ensures resultCode in {CheckResultOk, CheckResultRefuseOnce, CheckResultFail}
    ensures resultCode == CheckResultOk <==> sdkInt < VersionCodesM || AllGranted(permissions)
    ensures resultCode == CheckResultRefuseOnce <==>
      !(sdkInt < VersionCodesM || AllGranted(permissions)) && !isFirstRequest && AllShowRationale(permissions)
    ensures request.Some? <==>
      !(sdkInt < VersionCodesM || AllGranted(permissions)) && (isFirstRequest || AllShowRationale(permissions))
    ensures request.Some? ==> request.value == Request(Names(permissions), RequestCode)
  {
    var granted, checked := IsPermissionGranted(sdkInt, permissions);
    if granted {
      resultCode, request := CheckResultOk, None;
    } else {
      if isFirstRequest {
        request := Some(Request(Names(permissions), RequestCode));
        resultCode := CheckResultFail;
      } else {
        var refuseOnce, asked := IsRefuseOncePermission(permissions);
        if refuseOnce {
          request := Some(Request(Names(permissions), RequestCode));
          resultCode := CheckResultRefuseOnce;
        } else {
          resultCode, request := CheckResultFail, None;
        }
      }
    }
  }
}
