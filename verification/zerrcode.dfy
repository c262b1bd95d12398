/** The error codes of zcrt/zerrcode.h that the modelled functions return. */
module ErrCode {
  const SUCCESS := 0
  const PARAM_ERR := -100
  const INVALID_CRT_MODULE := -99
  const EXISTED := -93
  const IPC_BODY_ERR := -78
  const IPC_NOT_SUPPORT := -77
}
